/**
 `sort.Strings`: Go compares strings byte by byte, a proper prefix coming
 first. Characters here stand for those bytes (for UTF-8 text, code-point
 order and byte order agree).
 */
module Ordering {

  /** `a <= b` as Go compares strings. */
  predicate LexLeq(a: string, b: string)
    decreases |a|
  {
    |a| == 0 || (|b| > 0 && (a[0] < b[0] || (a[0] == b[0] && LexLeq(a[1..], b[1..]))))
  }

  lemma {:induction false} LexLeqReflexive(a: string)
    ensures LexLeq(a, a)
    decreases |a|
  {
    if |a| > 0 {
      LexLeqReflexive(a[1..]);
    }
  }

  lemma {:induction false} LexLeqTotal(a: string, b: string)
    ensures LexLeq(a, b) || LexLeq(b, a)
    decreases |a|
  {
    if |a| > 0 && |b| > 0 && a[0] == b[0] {
      LexLeqTotal(a[1..], b[1..]);
    }
  }

  lemma {:induction false} LexLeqAntisymmetric(a: string, b: string)
    requires LexLeq(a, b) && LexLeq(b, a)
    ensures a == b
    decreases |a|
  {
    if |a| > 0 {
      LexLeqAntisymmetric(a[1..], b[1..]);
      assert a == [a[0]] + a[1..] && b == [b[0]] + b[1..];
    }
  }

  lemma {:induction false} LexLeqTransitive(a: string, b: string, c: string)
    requires LexLeq(a, b) && LexLeq(b, c)
    ensures LexLeq(a, c)
    decreases |a|
  {
    if |a| > 0 && a[0] == b[0] && b[0] == c[0] {
      LexLeqTransitive(a[1..], b[1..], c[1..]);
    }
  }

  /** Paths sharing a prefix, such as one directory, compare as what follows the prefix. */
  lemma {:induction false} LexLeqCommonPrefix(p: string, a: string, b: string)
    ensures LexLeq(p + a, p + b) <==> LexLeq(a, b)
    decreases |p|
  {
    if |p| > 0 {
      var pa, pb := p + a, p + b;
      assert pa[1..] == p[1..] + a && pb[1..] == p[1..] + b;
      assert pa[0] == pb[0];
      LexLeqCommonPrefix(p[1..], a, b);
    } else {
      assert p + a == a && p + b == b;
    }
  }

  /** Ascending in Go's string order. */
  predicate Sorted(s: seq<string>)
  {
    forall i, j | 0 <= i < j < |s| :: LexLeq(s[i], s[j])
  }

  /** Everything that goes after the head of a sorted sequence, including a larger `x`, is at least the head. */
  lemma HeadIsLeast(x: string, s: seq<string>, rest: seq<string>)
    requires Sorted(s) && |s| > 0 && !LexLeq(x, s[0])
    requires forall y | y in rest :: y == x || y in s[1..]
    ensures forall j | 0 <= j < |rest| :: LexLeq(s[0], rest[j])
  {
    LexLeqTotal(x, s[0]);
    forall j | 0 <= j < |rest|
      ensures LexLeq(s[0], rest[j])
    {
      assert rest[j] in rest;
      if rest[j] != x {
        var k :| 0 <= k < |s| - 1 && s[1..][k] == rest[j];
        assert s[k + 1] == rest[j];
      }
    }
  }

  /** Puts `x` into a sorted sequence at its place. */
  function Insert(x: string, s: seq<string>): (r: seq<string>)
    requires Sorted(s)
    ensures Sorted(r)
    ensures multiset(r) == multiset(s) + multiset{x}
    ensures forall y | y in r :: y == x || y in s
    decreases |s|
  {
    if |s| == 0 then [x]
    else if LexLeq(x, s[0]) then
      assert forall j | 0 < j < |s| :: LexLeq(x, s[j]) by {
        forall j | 0 < j < |s| ensures LexLeq(x, s[j]) {
          LexLeqTransitive(x, s[0], s[j]);
        }
      }
      [x] + s
    else
      var rest := Insert(x, s[1..]);
      HeadIsLeast(x, s, rest);
      assert s == [s[0]] + s[1..];
      [s[0]] + rest
  }

  /** The matches in ascending order: a sorted permutation of `s`. */
  function SortStrings(s: seq<string>): (r: seq<string>)
    ensures Sorted(r)
    ensures multiset(r) == multiset(s)
    decreases |s|
  {
    if |s| == 0 then []
    else
      assert s == [s[0]] + s[1..];
      Insert(s[0], SortStrings(s[1..]))
  }

  /** Two sorted permutations of each other, not empty, start with the same string. */
  lemma SortedHeadsAgree(a: seq<string>, b: seq<string>)
    requires Sorted(a) && Sorted(b)
    requires multiset(a) == multiset(b)
    requires |a| > 0
    ensures |b| > 0 && a[0] == b[0]
  {
    assert |multiset(b)| == |b| && |multiset(a)| == |a|;
    assert a[0] in multiset(b) && b[0] in multiset(a);
    var i :| 0 <= i < |b| && b[i] == a[0];
    var j :| 0 <= j < |a| && a[j] == b[0];
    assert LexLeq(b[0], a[0]) by {
      if i == 0 {
        LexLeqReflexive(a[0]);
      }
    }
    assert LexLeq(a[0], b[0]) by {
      if j == 0 {
        LexLeqReflexive(b[0]);
      }
    }
    LexLeqAntisymmetric(a[0], b[0]);
  }

  /** Dropping the head of a sequence drops one occurrence of it from the multiset. */
  lemma MultisetOfTail(a: seq<string>)
    requires |a| > 0
    ensures multiset(a[1..]) == multiset(a) - multiset{a[0]}
  {
    assert a == [a[0]] + a[1..];
    assert multiset(a) == multiset{a[0]} + multiset(a[1..]);
  }

  /**
   A sorted permutation is unique, so the result does not depend on the
   algorithm `sort.Strings` happens to use or on the order the walk found
   the files in.
   */
  lemma {:induction false} SortedIsUnique(a: seq<string>, b: seq<string>)
    requires Sorted(a) && Sorted(b)
    requires multiset(a) == multiset(b)
    ensures a == b
    decreases |a|
  {
    if |a| == 0 {
      assert |multiset(b)| == |b|;
    } else {
      SortedHeadsAgree(a, b);
      MultisetOfTail(a);
      MultisetOfTail(b);
      SortedIsUnique(a[1..], b[1..]);
      assert a == [a[0]] + a[1..] && b == [b[0]] + b[1..];
    }
  }
}
