/**
 Byte-wise order of strings and the one sorted listing of a finite set of them.
 */
module Ordering {
  import opened Sequences

  /** a comes strictly before b. */
  predicate Before(a: string, b: string) {
    b != "" && (a == "" || a[0] < b[0] || (a[0] == b[0] && Before(a[1..], b[1..])))
  }

  lemma BeforeIsTotal(a: string, b: string)
    ensures Before(a, b) || Before(b, a) || a == b
    ensures !(Before(a, b) && Before(b, a)) && !Before(a, a)
  {
    if a != "" && b != "" {
      BeforeIsTotal(a[1..], b[1..]);
      assert a == [a[0]] + a[1..] && b == [b[0]] + b[1..];
    }
  }

  lemma BeforeIsTransitive(a: string, b: string, c: string)
    requires Before(a, b) && Before(b, c)
    ensures Before(a, c)
  {
    if a != "" && a[0] == b[0] == c[0] {
      BeforeIsTransitive(a[1..], b[1..], c[1..]);
    }
  }

  ghost predicate Ascending(s: seq<string>) {
    forall i, j :: 0 <= i < j < |s| ==> Before(s[i], s[j])
  }

  /** A set has one ascending listing. */
  lemma {:induction false} AscendingIsUnique(s: seq<string>, t: seq<string>)
    requires Ascending(s) && Ascending(t) && Elements(s) == Elements(t)
    ensures s == t
  {
    NothingListed(s);
    NothingListed(t);
    if s != [] {
      BeforeIsTotal(s[0], t[0]);
      assert s[0] in Elements(t) && t[0] in Elements(s);
      assert s[0] == t[0] by {
        hide Before;
        var i :| 0 <= i < |t| && t[i] == s[0];
        var j :| 0 <= j < |s| && s[j] == t[0];
      }
      forall x
        ensures x in Elements(s[1..]) <==> x in Elements(t[1..])
      {
        hide Before;
        BeforeIsTotal(x, x);
        assert x in Elements(s[1..]) ==> x in Elements(s) && x != s[0];
        assert x in Elements(t[1..]) ==> x in Elements(t) && x != t[0];
      }
      AscendingIsUnique(s[1..], t[1..]);
    }
  }

  ghost predicate IsFirst(x: string, keys: set<string>) {
    x in keys && forall y :: y in keys && y != x ==> Before(x, y)
  }

  lemma {:induction false} FirstExists(keys: set<string>)
    requires keys != {}
    ensures exists x :: IsFirst(x, keys)
    decreases keys
  {
    var k :| k in keys;
    if keys == {k} {
      assert IsFirst(k, keys);
    } else {
      var rest := keys - {k};
      FirstExists(rest);
      var x :| IsFirst(x, rest);
      BeforeIsTotal(x, k);
      if Before(x, k) {
        assert IsFirst(x, keys);
      } else {
        forall y | y in keys && y != k
          ensures Before(k, y)
        {
          if y != x { BeforeIsTransitive(k, x, y); }
        }
        assert IsFirst(k, keys);
      }
    }
  }

  lemma PutFirst(x: string, rest: seq<string>, keys: set<string>)
    requires IsFirst(x, keys) && Ascending(rest) && Elements(rest) == keys - {x}
    ensures Ascending([x] + rest) && Elements([x] + rest) == keys
  {
    hide Before;
    assert forall y :: y in rest ==> y in Elements(rest);
    forall y
      ensures y in Elements([x] + rest) <==> y in keys
    {
      assert y in Elements([x] + rest) <==> y == x || y in Elements(rest);
    }
  }

  /** The ascending listing of a set. */
  ghost function Sorted(keys: set<string>): (s: seq<string>)
    ensures Ascending(s) && Elements(s) == keys && |s| == |keys|
    decreases keys
  {
    if keys == {} then []
    else
      FirstExists(keys);
      var x :| IsFirst(x, keys);
      var rest := Sorted(keys - {x});
      PutFirst(x, rest, keys);
      [x] + rest
  }

  lemma ListedLast(s: seq<string>, x: string)
    ensures Elements(s + [x]) == Elements(s) + {x}
  {
  }

  lemma AscendingIsDistinct(keys: seq<string>)
    requires Ascending(keys)
    ensures forall i, j :: 0 <= i < j < |keys| ==> keys[i] != keys[j]
  {
    forall i, j | 0 <= i < j < |keys| ensures keys[i] != keys[j] { BeforeIsTotal(keys[i], keys[j]); }
  }

  /** No text before an earlier one; equal texts may stand side by side. */
  ghost predicate InOrder(s: seq<string>) {
    forall i, j :: 0 <= i < j < |s| ==> !Before(s[j], s[i])
  }

  /** `sort.Strings`: rearranges into order. */
  method SortStrings(texts: seq<string>) returns (s: seq<string>)
    ensures InOrder(s) && multiset(s) == multiset(texts)
  {
    hide InOrder;
    s := [];
    NothingIsInOrder();
    for i := 0 to |texts|
      invariant InOrder(s) && multiset(s) == multiset(texts[..i])
    {
      s := Insert(s, texts[i]);
      assert texts[..i + 1] == texts[..i] + [texts[i]];
    }
    assert texts[..|texts|] == texts;
  }

  lemma NothingIsInOrder()
    ensures InOrder([])
  {
  }

  method Insert(s: seq<string>, x: string) returns (t: seq<string>)
    requires InOrder(s)
    ensures InOrder(t) && multiset(t) == multiset(s) + multiset{x}
  {
    hide Before;
    var i := 0;
    while i < |s| && !Before(x, s[i])
      invariant 0 <= i <= |s|
      invariant forall j :: 0 <= j < i ==> !Before(x, s[j])
    {
      i := i + 1;
    }
    forall j | i <= j < |s|
      ensures !Before(s[j], x)
    {
      if Before(s[j], x) {
        BeforeIsTransitive(s[j], x, s[i]);
        BeforeIsTotal(s[i], s[j]);
      }
    }
    t := s[..i] + [x] + s[i..];
    assert s == s[..i] + s[i..];
  }

  /** Of distinct texts the order is the one ascending listing. */
  lemma DistinctInOrder(s: seq<string>, texts: seq<string>)
    requires InOrder(s) && multiset(s) == multiset(texts)
    requires forall i, j :: 0 <= i < j < |texts| ==> texts[i] != texts[j]
    ensures s == Sorted(Elements(texts))
  {
    hide Before, Sorted;
    SameMembers(s, texts);
    OnceEach(texts);
    forall i, j | 0 <= i < j < |s| ensures Before(s[i], s[j]) {
      BeforeIsTotal(s[i], s[j]);
      if s[i] == s[j] { TwiceCounts(s, i, j); }
    }
    AscendingIsUnique(s, Sorted(Elements(texts)));
  }

  lemma SameMembers(s: seq<string>, t: seq<string>)
    requires multiset(s) == multiset(t)
    ensures Elements(s) == Elements(t)
  {
    assert forall x :: x in s <==> x in multiset(s);
    assert forall x :: x in t <==> x in multiset(t);
  }

  lemma {:induction false} OnceEach(s: seq<string>)
    requires forall i, j :: 0 <= i < j < |s| ==> s[i] != s[j]
    ensures forall x :: multiset(s)[x] <= 1
  {
    if s != [] {
      OnceEach(s[1..]);
      assert s == [s[0]] + s[1..];
      assert s[0] !in s[1..];
    }
  }

  lemma TwiceCounts(s: seq<string>, i: nat, j: nat)
    requires i < j < |s| && s[i] == s[j]
    ensures multiset(s)[s[i]] >= 2
  {
    assert s == s[..i] + [s[i]] + s[i + 1..j] + [s[j]] + s[j + 1..];
  }

  /** The keys of a map as a loop visits them: each once, in no particular order. */
  method InAnyOrder(keys: set<string>) returns (s: seq<string>)
    ensures Elements(s) == keys
    ensures forall i, j :: 0 <= i < j < |s| ==> s[i] != s[j]
  {
    s := [];
    var unseen := keys;
    while unseen != {}
      invariant unseen !! Elements(s) && unseen + Elements(s) == keys
      invariant forall i, j :: 0 <= i < j < |s| ==> s[i] != s[j]
    {
      var k :| k in unseen;
      assert forall i :: 0 <= i < |s| ==> s[i] in Elements(s);
      ListedLast(s, k);
      s := s + [k];
      unseen := unseen - {k};
    }
  }

  /** Collected in any order, then sorted. */
  method SortedListing(keys: set<string>) returns (s: seq<string>)
    ensures s == Sorted(keys)
    ensures forall i :: 0 <= i < |s| ==> s[i] in keys
    ensures forall i, j :: 0 <= i < j < |s| ==> s[i] != s[j]
  {
    var unsorted := InAnyOrder(keys);
    s := SortStrings(unsorted);
    DistinctInOrder(s, unsorted);
    AscendingIsDistinct(s);
    assert forall i :: 0 <= i < |s| ==> s[i] in Elements(s);
  }

  /** The order is byte by byte: the first byte that differs decides, and a text comes
      before all that go on from it. */
  lemma {:induction false} BeforeIsByBytes(a: string, b: string)
    ensures Before(a, b) <==>
              exists k :: 0 <= k <= |a| && k < |b| && a[..k] == b[..k] && (k == |a| || a[k] < b[k])
  {
    if b != "" && a != "" && a[0] == b[0] {
      BeforeIsByBytes(a[1..], b[1..]);
      if k :| 0 <= k <= |a| - 1 && k < |b| - 1 && a[1..][..k] == b[1..][..k] && (k == |a| - 1 || a[1..][k] < b[1..][k]) {
        assert a[..k + 1] == [a[0]] + a[1..][..k] && b[..k + 1] == [b[0]] + b[1..][..k];
      }
      if k :| 0 <= k <= |a| && k < |b| && a[..k] == b[..k] && (k == |a| || a[k] < b[k]) {
        assert a[1..][..k - 1] == a[..k][1..] && b[1..][..k - 1] == b[..k][1..];
      }
    } else if Before(a, b) {
      assert a[..0] == b[..0];
    } else if k :| 0 <= k <= |a| && k < |b| && a[..k] == b[..k] && (k == |a| || a[k] < b[k]) {
      if k > 0 { assert a[..k][0] == b[..k][0]; }
    }
  }
}
