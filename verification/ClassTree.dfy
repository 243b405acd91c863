/**
 The hierarchy of asset classes: ancestry decided by a dotted-prefix test on paths,
 over any table that spells each path as its parent's path, a dot and the key.
 */
module ClassTree {
  datatype Class = Class(key: string, parent: string, path: string)

  type Index = map<string, Class>

  /** The lookup table by key; of two classes with one key the later would win. */
  function IndexOf(all: seq<Class>): Index {
    if all == [] then map[] else IndexOf(all[..|all| - 1])[all[|all| - 1].key := all[|all| - 1]]
  }

  method BuildIndex(all: seq<Class>) returns (byKey: Index)
    ensures byKey == IndexOf(all)
  {
    byKey := map[];
    for i := 0 to |all|
      invariant byKey == IndexOf(all[..i])
    {
      assert all[..i + 1][..i] == all[..i];
      byKey := byKey[all[i].key := all[i]];
    }
    assert all[..|all|] == all;
  }

  predicate IsAncestor(byKey: Index, ancestor: string, key: string) {
    if ancestor == "" || key == "" then false
    else if ancestor == key then key in byKey
    else key in byKey && ancestor in byKey && byKey[ancestor].path + "." <= byKey[key].path
  }

  function ChildrenOf(all: seq<Class>, key: string): seq<Class> {
    if all == [] then []
    else
      var c := all[|all| - 1];
      ChildrenOf(all[..|all| - 1], key) + if c.parent == key && c.parent != "" then [c] else []
  }

  function RootsOf(all: seq<Class>): seq<Class> {
    if all == [] then []
    else
      var c := all[|all| - 1];
      RootsOf(all[..|all| - 1]) + if c.parent == "" then [c] else []
  }

  method Children(all: seq<Class>, key: string) returns (out: seq<Class>)
    ensures out == ChildrenOf(all, key)
  {
    out := [];
    for i := 0 to |all|
      invariant out == ChildrenOf(all[..i], key)
    {
      assert all[..i + 1][..i] == all[..i];
      if all[i].parent == key && all[i].parent != "" {
        out := out + [all[i]];
      }
    }
    assert all[..|all|] == all;
  }

  method Roots(all: seq<Class>) returns (out: seq<Class>)
    ensures out == RootsOf(all)
  {
    out := [];
    for i := 0 to |all|
      invariant out == RootsOf(all[..i])
    {
      assert all[..i + 1][..i] == all[..i];
      if all[i].parent == "" {
        out := out + [all[i]];
      }
    }
    assert all[..|all|] == all;
  }

  // ---------- well-formed tables ----------

  predicate IsKey(s: string) { s != "" && '.' !in s }

  /** Is the path the parent's path, a dot and the key, or for a root just the key? */
  predicate Placed(byKey: Index, c: Class) {
    && IsKey(c.key)
    && if c.parent == "" then c.path == c.key
       else c.parent in byKey && c.path == byKey[c.parent].path + "." + c.key
  }

  ghost predicate WellFormed(all: seq<Class>) {
    && (forall i, j :: 0 <= i < j < |all| ==> all[i].key != all[j].key)
    && forall i :: 0 <= i < |all| ==> Placed(IndexOf(all), all[i])
  }

  /** What the proofs need of a lookup table. */
  ghost predicate IsTree(byKey: Index) {
    forall k :: k in byKey ==> byKey[k].key == k && Placed(byKey, byKey[k])
  }

  /** With unique keys the lookup finds exactly the classes of the table. */
  lemma {:induction false} IndexIsExact(all: seq<Class>, c: Class)
    requires forall i, j :: 0 <= i < j < |all| ==> all[i].key != all[j].key
    ensures c in all <==> c.key in IndexOf(all) && IndexOf(all)[c.key] == c
    ensures forall k :: k in IndexOf(all) ==> IndexOf(all)[k].key == k
  {
    if all != [] {
      var n := |all| - 1;
      IndexIsExact(all[..n], c);
      assert all == all[..n] + [all[n]];
      assert c in all[..n] ==> c.key != all[n].key;
    }
  }

  lemma WellFormedIsTree(all: seq<Class>)
    requires WellFormed(all)
    ensures IsTree(IndexOf(all))
  {
    var byKey := IndexOf(all);
    forall k | k in byKey ensures byKey[k].key == k && Placed(byKey, byKey[k]) {
      IndexIsExact(all, byKey[k]);
      assert byKey[k] in all;
    }
  }

  // ---------- ancestry ----------

  /** Does following parents from `key` come to `ancestor`? */
  ghost predicate Reaches(byKey: Index, ancestor: string, key: string)
    requires IsTree(byKey)
    decreases if key in byKey then |byKey[key].path| else 0
  {
    && key in byKey
    && (ancestor == key || (byKey[key].parent != "" && Reaches(byKey, ancestor, byKey[key].parent)))
  }

  /** Two paths that end in the same way after their last dot end in the same key. */
  lemma LastSegment(p: string, q: string, k: string, l: string)
    requires IsKey(k) && IsKey(l) && p + "." + k == q + "." + l
    ensures k == l && p == q
  {
    var s := p + "." + k;
    assert s[|p|] == '.' && s[|q|] == '.';
    assert forall i :: |p| < i < |s| ==> s[i] == k[i - |p| - 1];
    assert forall i :: |q| < i < |s| ==> s[i] == l[i - |q| - 1];
    assert |p| == |q|;
    assert k == s[|p| + 1..] && l == s[|q| + 1..] && p == s[..|p|] && q == s[..|q|];
  }

  /** A path names its class. */
  lemma PathsAreUnique(byKey: Index, a: string, b: string)
    requires IsTree(byKey) && a in byKey && b in byKey && byKey[a].path == byKey[b].path
    ensures a == b
  {
    var c, d := byKey[a], byKey[b];
    assert c.parent != "" ==> '.' in c.path by { if c.parent != "" { assert c.path[|byKey[c.parent].path|] == '.'; } }
    assert d.parent != "" ==> '.' in d.path by { if d.parent != "" { assert d.path[|byKey[d.parent].path|] == '.'; } }
    if c.parent != "" {
      LastSegment(byKey[c.parent].path, byKey[d.parent].path, c.key, d.key);
    }
  }

  /** A dotted prefix of a path is its parent's path, or a dotted prefix of that. */
  lemma DropSegment(s: string, p: string, k: string)
    requires '.' !in k && s + "." <= p + "." + k
    ensures s == p || s + "." <= p
  {
    var path := p + "." + k;
    assert path[|s|] == '.';
    assert forall i :: |p| < i < |path| ==> path[i] == k[i - |p| - 1];
    assert |s| <= |p|;
    assert s == path[..|s|] && s + "." == path[..|s| + 1];
    assert p == path[..|p|];
  }

  lemma {:induction false} ReachedIsPrefix(byKey: Index, a: string, k: string)
    requires IsTree(byKey) && Reaches(byKey, a, k) && a != k
    ensures a in byKey && byKey[a].path + "." <= byKey[k].path
    decreases |byKey[k].path|
  {
    var p := byKey[k].parent;
    if a != p { ReachedIsPrefix(byKey, a, p); }
  }

  lemma {:induction false} PrefixIsReached(byKey: Index, a: string, k: string)
    requires IsTree(byKey) && a in byKey && k in byKey && byKey[a].path + "." <= byKey[k].path
    ensures Reaches(byKey, a, k) && a != k
    decreases |byKey[k].path|
  {
    var c, s := byKey[k], byKey[a].path;
    assert c.path[|s|] == '.';
    var p := byKey[c.parent].path;
    DropSegment(s, p, c.key);
    if s == p {
      PathsAreUnique(byKey, a, c.parent);
    } else {
      PrefixIsReached(byKey, a, c.parent);
    }
  }

  /** The prefix test is ancestry, for any two strings, known as keys or not. */
  lemma {:induction false} AncestryIsExact(all: seq<Class>, ancestor: string, key: string)
    requires WellFormed(all)
    ensures IsTree(IndexOf(all))
    ensures IsAncestor(IndexOf(all), ancestor, key) <==> Reaches(IndexOf(all), ancestor, key)
  {
    WellFormedIsTree(all);
    var byKey := IndexOf(all);
    assert "" !in byKey;
    if Reaches(byKey, ancestor, key) && ancestor != key { ReachedIsPrefix(byKey, ancestor, key); }
    if ancestor in byKey && key in byKey && byKey[ancestor].path + "." <= byKey[key].path {
      PrefixIsReached(byKey, ancestor, key);
    }
  }

  // ---------- roots and children ----------

  lemma {:induction false} RootsAreExact(all: seq<Class>, c: Class)
    ensures c in RootsOf(all) <==> c in all && c.parent == ""
  {
    if all != [] {
      RootsAreExact(all[..|all| - 1], c);
      assert all == all[..|all| - 1] + [all[|all| - 1]];
    }
  }

  lemma {:induction false} ChildrenAreExact(all: seq<Class>, key: string, c: Class)
    ensures c in ChildrenOf(all, key) <==> c in all && c.parent == key && key != ""
  {
    if all != [] {
      ChildrenAreExact(all[..|all| - 1], key, c);
      assert all == all[..|all| - 1] + [all[|all| - 1]];
    }
  }

  /** Where following parents ends. */
  ghost function Root(byKey: Index, key: string): string
    requires IsTree(byKey) && key in byKey
    decreases |byKey[key].path|
  {
    if byKey[key].parent == "" then key else Root(byKey, byKey[key].parent)
  }

  lemma {:induction false} RootIsReached(byKey: Index, key: string)
    requires IsTree(byKey) && key in byKey
    ensures Root(byKey, key) in byKey && byKey[Root(byKey, key)].parent == ""
    ensures Reaches(byKey, Root(byKey, key), key)
    ensures forall r :: r in byKey && byKey[r].parent == "" && Reaches(byKey, r, key) ==> r == Root(byKey, key)
    decreases |byKey[key].path|
  {
    if byKey[key].parent != "" { RootIsReached(byKey, byKey[key].parent); }
  }

  /** Every class lies below exactly one of the roots. */
  lemma OneRootEach(all: seq<Class>, c: Class)
    requires WellFormed(all) && c in all
    ensures exists r :: r in RootsOf(all) && IsAncestor(IndexOf(all), r.key, c.key)
    ensures forall r, r' ::
              && r in RootsOf(all) && IsAncestor(IndexOf(all), r.key, c.key)
              && r' in RootsOf(all) && IsAncestor(IndexOf(all), r'.key, c.key)
              ==> r == r'
  {
    var byKey := IndexOf(all);
    WellFormedIsTree(all);
    IndexIsExact(all, c);
    RootIsReached(byKey, c.key);
    var root := byKey[Root(byKey, c.key)];
    forall r: Class
      ensures r in RootsOf(all) <==> r.key in byKey && byKey[r.key] == r && r.parent == ""
      ensures IsAncestor(byKey, r.key, c.key) <==> Reaches(byKey, r.key, c.key)
    {
      RootsAreExact(all, r);
      IndexIsExact(all, r);
      AncestryIsExact(all, r.key, c.key);
    }
    hide IsAncestor, RootsOf, IndexOf, WellFormed;
    assert root in RootsOf(all) && IsAncestor(byKey, root.key, c.key);
  }

  /** What lies strictly below a class lies below, or is, one of its children: walking
      down by children agrees with the test on paths. */
  lemma DescendantsAreBelowChildren(all: seq<Class>, a: string, c: Class)
    requires WellFormed(all) && c in all
    ensures a != c.key && IsAncestor(IndexOf(all), a, c.key) <==>
              exists d :: d in ChildrenOf(all, a) && IsAncestor(IndexOf(all), d.key, c.key)
  {
    var byKey := IndexOf(all);
    WellFormedIsTree(all);
    IndexIsExact(all, c);
    AncestryIsExact(all, a, c.key);
    forall d: Class
      ensures d in ChildrenOf(all, a) <==> d.key in byKey && byKey[d.key] == d && d.parent == a && a != ""
      ensures IsAncestor(byKey, d.key, c.key) <==> Reaches(byKey, d.key, c.key)
    {
      ChildrenAreExact(all, a, d);
      IndexIsExact(all, d);
      AncestryIsExact(all, d.key, c.key);
    }
    hide IsAncestor, ChildrenOf, IndexOf, WellFormed;
    if a != c.key && Reaches(byKey, a, c.key) {
      var d := StepTowards(byKey, a, c.key);
      assert byKey[d] in ChildrenOf(all, a) && IsAncestor(byKey, byKey[d].key, c.key);
    }
    if d :| d in ChildrenOf(all, a) && IsAncestor(byKey, d.key, c.key) {
      ParentIsReached(byKey, d.key, c.key);
      ReachedIsPrefix(byKey, a, c.key);
    }
  }

  /** The last class before `a` on the way up from `k`. */
  lemma {:induction false} StepTowards(byKey: Index, a: string, k: string) returns (d: string)
    requires IsTree(byKey) && Reaches(byKey, a, k) && a != k
    ensures a != "" && d in byKey && byKey[d].parent == a && Reaches(byKey, d, k)
    decreases |byKey[k].path|
  {
    var p := byKey[k].parent;
    if a == p { d := k; } else { d := StepTowards(byKey, a, p); }
  }

  lemma {:induction false} ParentIsReached(byKey: Index, d: string, k: string)
    requires IsTree(byKey) && Reaches(byKey, d, k) && d in byKey && byKey[d].parent != ""
    ensures Reaches(byKey, byKey[d].parent, k) && byKey[d].parent != k
    decreases |byKey[k].path|
  {
    if d != k {
      ReachedIsPrefix(byKey, d, k);
      ParentIsReached(byKey, d, byKey[k].parent);
    }
    assert |byKey[byKey[d].parent].path| < |byKey[d].path|;
  }

  /** Children and roots are listed in the order of the table. */
  lemma {:induction false} ListedInOrder(all: seq<Class>, more: seq<Class>, key: string)
    ensures ChildrenOf(all + more, key) == ChildrenOf(all, key) + ChildrenOf(more, key)
    ensures RootsOf(all + more) == RootsOf(all) + RootsOf(more)
  {
    if more == [] {
      assert all + more == all;
    } else {
      ListedInOrder(all, more[..|more| - 1], key);
      assert (all + more)[..|all + more| - 1] == all + more[..|more| - 1];
    }
  }
}
