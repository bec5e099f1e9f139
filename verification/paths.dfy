/**
 File-name handling used by the selector: `filepath.Base` on a Unix system,
 `isHidden`, and `filepath.Match` restricted to the patterns the program
 uses, a `*` followed by a literal extension.
 */
module Paths {
  import opened Affixes

  /** No path separator anywhere in `s`. */
  predicate NoSlash(s: string)
  {
    forall i | 0 <= i < |s| :: s[i] != '/'
  }

  /** `s` consists of separators only. */
  predicate AllSlashes(s: string)
  {
    forall i | 0 <= i < |s| :: s[i] == '/'
  }

  /** `p` with its trailing separators removed. */
  function TrimTrailingSlashes(p: string): string
    decreases |p|
  {
    if |p| > 0 && p[|p| - 1] == '/' then TrimTrailingSlashes(p[..|p| - 1]) else p
  }

  /** Trimming keeps a prefix that does not end in a separator and removes only separators. */
  lemma {:induction false} TrimmedShape(p: string)
    ensures var q := TrimTrailingSlashes(p);
            && q <= p
            && (q == [] || q[|q| - 1] != '/')
            && AllSlashes(p[|q|..])
            && (AllSlashes(p) ==> q == [])
    decreases |p|
  {
    if |p| > 0 && p[|p| - 1] == '/' {
      var init := p[..|p| - 1];
      TrimmedShape(init);
      var q := TrimTrailingSlashes(init);
      assert p[|q|..] == init[|q|..] + [p[|p| - 1]];
    }
  }

  /** The part of `q` after its last separator. */
  function LastSegment(q: string): string
    decreases |q|
  {
    if |q| == 0 || q[|q| - 1] == '/' then [] else LastSegment(q[..|q| - 1]) + [q[|q| - 1]]
  }

  /** The last segment is a separator-free suffix, preceded by a separator unless it is the whole string. */
  lemma {:induction false} SegmentShape(q: string)
    ensures var s := LastSegment(q);
            && |s| <= |q| && q[|q| - |s|..] == s
            && NoSlash(s)
            && (|s| < |q| ==> q[|q| - |s| - 1] == '/')
    decreases |q|
  {
    if |q| > 0 && q[|q| - 1] != '/' {
      var init := q[..|q| - 1];
      SegmentShape(init);
      var s := LastSegment(init);
      assert q[|q| - |s| - 1..] == init[|init| - |s|..] + [q[|q| - 1]];
    }
  }

  /**
   `filepath.Base`: the last element of the path once trailing separators
   are dropped; "." for the empty path and "/" for a path of separators only.
   */
  function Base(p: string): string
  {
    if p == "" then "."
    else
      var q := TrimTrailingSlashes(p);
      if q == "" then "/" else LastSegment(q)
  }

  /** The base name is never empty, and it is either "/" or free of separators. */
  lemma BaseShape(p: string)
    ensures |Base(p)| > 0
    ensures Base(p) == "/" || NoSlash(Base(p))
  {
    if p != "" {
      var q := TrimTrailingSlashes(p);
      TrimmedShape(p);
      SegmentShape(q);
      if q != "" {
        assert q[|q| - 1] != '/';
      }
    }
  }

  /** A path split as a directory part, a last element, and trailing separators. */
  predicate IsSplit(dir: string, name: string, slashes: string)
  {
    && (dir == [] || dir[|dir| - 1] == '/')
    && |name| > 0 && NoSlash(name)
    && AllSlashes(slashes)
  }

  /**
   Every path other than the empty one and those made only of separators
   splits into a directory part, a last element and trailing separators, so
   the lemmas about split paths cover all remaining paths.
   */
  lemma SplitExists(p: string)
    requires p != "" && !AllSlashes(p)
    ensures exists dir, name, slashes :: IsSplit(dir, name, slashes) && p == dir + name + slashes
  {
    var q := TrimTrailingSlashes(p);
    assert 0 < |q| <= |p| && q[|q| - 1] != '/' && p == q + p[|q|..] && AllSlashes(p[|q|..]) by {
      TrimmedShape(p);
    }
    var slashes := p[|q|..];
    var name := LastSegment(q);
    assert 0 < |name| <= |q| && NoSlash(name) && q == q[..|q| - |name|] + name by {
      SegmentShape(q);
    }
    var dir := q[..|q| - |name|];
    assert dir == [] || dir[|dir| - 1] == '/' by {
      SegmentShape(q);
    }
    assert IsSplit(dir, name, slashes) && p == dir + name + slashes;
  }

  /** The base name of a path is exactly its last element, whatever precedes it and however many separators follow. */
  lemma BaseOfSplit(dir: string, name: string, slashes: string)
    requires IsSplit(dir, name, slashes)
    ensures Base(dir + name + slashes) == name
  {
    var p := dir + name + slashes;
    var q := TrimTrailingSlashes(p);
    TrimmedShape(p);
    var k := |dir + name|;
    assert p[k - 1] == name[|name| - 1];
    assert |q| == k;
    assert q == dir + name;
    if |dir| > 0 {
      assert q[|dir| - 1] == '/';
    }
    var s := LastSegment(q);
    SegmentShape(q);
    assert |s| == |name|;
  }

  /** `isHidden`: the base name begins with a dot. */
  predicate IsHidden(p: string)
  {
    HasPrefix(Base(p), ".")
  }

  /** A path is hidden exactly when its last element begins with '.'; the directories above it do not matter. */
  lemma HiddenIffDotName(dir: string, name: string, slashes: string)
    requires IsSplit(dir, name, slashes)
    ensures IsHidden(dir + name + slashes) <==> name[0] == '.'
  {
    BaseOfSplit(dir, name, slashes);
  }

  /**
   The degenerate cases of `filepath.Base` carry through: the empty path has
   base "." and so counts as hidden, while a path of separators only has
   base "/" and does not.
   */
  lemma HiddenDegenerate(p: string)
    ensures p == "" ==> IsHidden(p)
    ensures |p| > 0 && AllSlashes(p) ==> !IsHidden(p)
  {
    if |p| > 0 && AllSlashes(p) {
      TrimmedShape(p);
      assert Base(p)[..1][0] == '/';
    }
  }

  /** A glob pattern consisting of `*` followed by a literal without meta-characters, such as `*.yaml`. */
  datatype Glob = StarThen(literal: string)

  /**
   `filepath.Match` on such a pattern: the star consumes a run of
   non-separator characters and the literal must match the remainder exactly.
   */
  predicate Match(g: Glob, name: string)
  {
    && HasSuffix(name, g.literal)
    && NoSlash(name[..|name| - |g.literal|])
  }

  /**
   On a base name the pattern `*` + literal matches exactly the names ending
   in the literal, so the glob test of the walk callback is a suffix test.
   */
  lemma MatchBaseIsSuffix(lit: string, p: string)
    requires |lit| > 0 && NoSlash(lit)
    ensures Match(StarThen(lit), Base(p)) <==> HasSuffix(Base(p), lit)
  {
    BaseShape(p);
  }
}
