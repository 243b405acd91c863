/**
 Wildcard patterns of the query language: `*` is any run of characters and
 everything else is itself. The matcher goes from left to right and takes each
 literal part at its first occurrence, which is enough.
 */
module Wildcards {
  /** What a pattern means. */
  predicate Glob(pattern: string, value: string)
    decreases |pattern| + |value|
  {
    if pattern == "" then value == ""
    else if pattern[0] == '*' then
      Glob(pattern[1..], value) || (value != "" && Glob(pattern, value[1..]))
    else value != "" && value[0] == pattern[0] && Glob(pattern[1..], value[1..])
  }

  /** The literal parts between the stars. */
  function Parts(pattern: string): (parts: seq<string>)
    ensures parts != []
  {
    if pattern == "" then [""]
    else
      var rest := Parts(pattern[1..]);
      if pattern[0] == '*' then [""] + rest else [[pattern[0]] + rest[0]] + rest[1..]
  }

  predicate OccursAt(value: string, part: string, i: nat) {
    i + |part| <= |value| && value[i..i + |part|] == part
  }

  /** Does the value end in `part`? */
  predicate EndsIn(value: string, part: string) {
    |part| <= |value| && value[|value| - |part|..] == part
  }

  /** Any run, the first part, any run, the next, …, and the last part at the end. */
  ghost predicate Floating(parts: seq<string>, value: string)
    requires parts != []
  {
    if |parts| == 1 then EndsIn(value, parts[0])
    else exists i: nat :: OccursAt(value, parts[0], i) && Floating(parts[1..], value[i + |parts[0]|..])
  }

  /** The same, with the first part at the start. */
  ghost predicate Anchored(parts: seq<string>, value: string)
    requires parts != []
  {
    if |parts| == 1 then value == parts[0]
    else parts[0] <= value && Floating(parts[1..], value[|parts[0]|..])
  }

  /** More text in front does no harm. */
  lemma {:induction false} FloatsUp(parts: seq<string>, value: string, k: nat)
    requires parts != [] && k <= |value| && Floating(parts, value[k..])
    ensures Floating(parts, value)
  {
    if |parts| == 1 {
      assert value[|value| - |parts[0]|..] == value[k..][|value| - k - |parts[0]|..];
    } else {
      var i: nat :| OccursAt(value[k..], parts[0], i) && Floating(parts[1..], value[k..][i + |parts[0]|..]);
      assert value[k..][i..i + |parts[0]|] == value[k + i..k + i + |parts[0]|];
      assert value[k..][i + |parts[0]|..] == value[k + i + |parts[0]|..];
      assert OccursAt(value, parts[0], k + i);
    }
  }

  /** So the first occurrence is as good as any. */
  lemma FirstIsEnough(parts: seq<string>, value: string, i: nat)
    requires |parts| > 1 && OccursAt(value, parts[0], i)
    requires forall j: nat :: OccursAt(value, parts[0], j) ==> i <= j
    ensures Floating(parts, value) <==> Floating(parts[1..], value[i + |parts[0]|..])
  {
    if Floating(parts, value) {
      var j: nat :| OccursAt(value, parts[0], j) && Floating(parts[1..], value[j + |parts[0]|..]);
      var rest := value[i + |parts[0]|..];
      assert rest[j - i..] == value[j + |parts[0]|..];
      FloatsUp(parts[1..], rest, j - i);
    }
  }

  lemma FloatingStep(parts: seq<string>, value: string)
    requires parts != []
    ensures Floating(parts, value) <==> Anchored(parts, value) || (value != "" && Floating(parts, value[1..]))
  {
    if value != "" && Floating(parts, value[1..]) { FloatsUp(parts, value, 1); }
    if |parts| == 1 {
      if EndsIn(value, parts[0]) && value != parts[0] {
        assert value[1..][|value| - 1 - |parts[0]|..] == value[|value| - |parts[0]|..];
      }
    } else {
      if Anchored(parts, value) { assert OccursAt(value, parts[0], 0); }
      if Floating(parts, value) {
        var i: nat :| OccursAt(value, parts[0], i) && Floating(parts[1..], value[i + |parts[0]|..]);
        if i > 0 {
          assert value[1..][i - 1..i - 1 + |parts[0]|] == value[i..i + |parts[0]|];
          assert value[1..][i - 1 + |parts[0]|..] == value[i + |parts[0]|..];
          assert OccursAt(value[1..], parts[0], i - 1);
        }
      }
    }
  }

  lemma {:induction false} GlobIsAnchored(pattern: string, value: string)
    ensures Glob(pattern, value) <==> Anchored(Parts(pattern), value)
    decreases |pattern| + |value|
  {
    if pattern != "" {
      var rest := Parts(pattern[1..]);
      if pattern[0] == '*' {
        GlobIsAnchored(pattern[1..], value);
        FloatingStep(rest, value);
        assert Parts(pattern)[1..] == rest && value[0..] == value;
        if value != "" { GlobIsAnchored(pattern, value[1..]); assert value[1..][0..] == value[1..]; }
      } else if value != "" {
        GlobIsAnchored(pattern[1..], value[1..]);
        var first := [pattern[0]] + rest[0];
        assert Parts(pattern)[1..] == rest[1..];
        assert first <= value <==> value[0] == pattern[0] && rest[0] <= value[1..] by {
          assert first <= value ==> value[1..][..|rest[0]|] == first[1..] == rest[0];
        }
        assert first == value <==> value[0] == pattern[0] && rest[0] == value[1..] by {
          assert value == [value[0]] + value[1..];
        }
        assert first <= value ==> value[|first|..] == value[1..][|rest[0]|..];
      }
    }
  }

  lemma {:induction false} OnePart(pattern: string)
    requires |Parts(pattern)| == 1
    ensures Parts(pattern)[0] == pattern
  {
    if pattern != "" { OnePart(pattern[1..]); }
  }

  method Index(value: string, part: string) returns (found: bool, i: nat)
    ensures found ==> OccursAt(value, part, i) && forall j: nat :: OccursAt(value, part, j) ==> i <= j
    ensures !found ==> forall j: nat :: !OccursAt(value, part, j)
  {
    i := 0;
    while i + |part| <= |value|
      invariant forall j: nat :: OccursAt(value, part, j) ==> i <= j
    {
      if value[i..i + |part|] == part {
        return true, i;
      }
      i := i + 1;
    }
    return false, i;
  }

  function LowerChar(c: char): char { if 'A' <= c <= 'Z' then c + 32 as char else c }

  function Lower(s: string): (r: string)
    ensures |r| == |s| && forall i :: 0 <= i < |s| ==> r[i] == LowerChar(s[i])
  {
    seq(|s|, i requires 0 <= i < |s| => LowerChar(s[i]))
  }

  /** The greedy matcher decides what the pattern means, whatever `lower` folds. */
  method GlobMatch(lower: string -> string, pattern: string, value: string, fold: bool) returns (ok: bool)
    ensures ok <==> if fold then Glob(lower(pattern), lower(value)) else Glob(pattern, value)
  {
    var pat, rest := pattern, value;
    if fold {
      pat, rest := lower(pattern), lower(value);
    }
    GlobIsAnchored(pat, rest);
    var parts := Parts(pat);
    if |parts| == 1 {
      OnePart(pat);
      return pat == rest;
    }
    if !(parts[0] <= rest) {
      return false;
    }
    rest := rest[|parts[0]|..];
    ghost var all := rest;
    for k := 1 to |parts| - 1
      invariant Floating(parts[k..], rest) <==> Floating(parts[1..], all)
    {
      var found, i := Index(rest, parts[k]);
      assert parts[k..][0] == parts[k] && parts[k..][1..] == parts[k + 1..];
      if !found {
        return false;
      }
      FirstIsEnough(parts[k..], rest, i);
      rest := rest[i + |parts[k]|..];
    }
    return EndsIn(rest, parts[|parts| - 1]);
  }

  /** Text without a star matches itself only. */
  lemma {:induction false} PlainMatchesItself(p: string, value: string)
    requires '*' !in p
    ensures Glob(p, value) <==> value == p
  {
    if p != "" && value != "" {
      PlainMatchesItself(p[1..], value[1..]);
      assert p == [p[0]] + p[1..] && value == [value[0]] + value[1..];
    }
  }

  /** A star stands for any run of characters. */
  lemma {:induction false} StarIsAnyRun(p: string, q: string, value: string)
    requires '*' !in p
    ensures Glob(p + "*" + q, value) <==> p <= value && exists k :: |p| <= k <= |value| && Glob(q, value[k..])
    decreases |p| + |value|
  {
    var u := p + "*" + q;
    if p == "" {
      assert u[1..] == q && value[0..] == value;
      if value != "" {
        StarIsAnyRun(p, q, value[1..]);
        forall k | 1 <= k <= |value| ensures value[1..][k - 1..] == value[k..] { }
        if k :| 0 <= k <= |value| && Glob(q, value[k..]) {
          if k > 0 { assert Glob(q, value[1..][k - 1..]); }
        }
      }
    } else if value != "" {
      assert u[1..] == p[1..] + "*" + q && u[0] == p[0];
      StarIsAnyRun(p[1..], q, value[1..]);
      assert p <= value <==> p[0] == value[0] && p[1..] <= value[1..] by {
        assert p == [p[0]] + p[1..] && value == [value[0]] + value[1..];
      }
      forall k | |p| <= k <= |value| ensures value[1..][k - 1..] == value[k..] { }
      if k :| |p| <= k <= |value| && Glob(q, value[k..]) { assert Glob(q, value[1..][k - 1..]); }
      if k :| |p| - 1 <= k <= |value| - 1 && Glob(q, value[1..][k..]) { assert value[1..][k..] == value[k + 1..]; }
    }
  }
}
