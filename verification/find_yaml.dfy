/**
 The file selector (`findYaml` and its walk callback). The directory walk
 itself is foreign: it is given as the sequence of events the callback
 receives, in walk order.
 */
module Selection {
  import opened Outcomes
  import opened Affixes
  import opened Paths

  /** One call of the walk callback: a visited entry, or an error the walk reports for a path. */
  datatype WalkEvent = Visited(path: string, isDir: bool) | Unreadable(path: string, error: string)

  /** The fixed extension patterns, in the order the callback tries them. */
  const YamlPatterns: seq<Glob> := [StarThen(".yaml"), StarThen(".yml")]

  /**
   What the callback appends for a visited file: one copy of the path for
   every pattern its base name matches, unless it is hidden and hidden files
   are not wanted.
   */
  function Appended(path: string, includeHidden: bool, patterns: seq<Glob>): seq<string>
    decreases |patterns|
  {
    if |patterns| == 0 then []
    else
      (if Match(patterns[0], Base(path)) && (includeHidden || !IsHidden(path)) then [path] else [])
      + Appended(path, includeHidden, patterns[1..])
  }

  /**
   `findYaml`: the matches in walk order, or the first error the walk
   reported, in which case no matches are returned. `excluded` is accepted
   and never read.
   */
  function FindYaml(walk: seq<WalkEvent>, excluded: string, includeHidden: bool): (r: Result<seq<string>>)
    ensures r.Err? <==> exists e | e in walk :: e.Unreadable?
    decreases |walk|
  {
    if |walk| == 0 then Ok([])
    else
      var init := walk[..|walk| - 1];
      var last := walk[|walk| - 1];
      assert walk == init + [last];
      match FindYaml(init, excluded, includeHidden)
      case Err(e) => Err(e)
      case Ok(found) =>
        if last.Unreadable? then Err(last.error)
        else if last.isDir then Ok(found)
        else Ok(found + Appended(last.path, includeHidden, YamlPatterns))
  }

  /** The base name carries one of the two YAML extensions. */
  predicate HasYamlExtension(name: string)
  {
    HasSuffix(name, ".yaml") || HasSuffix(name, ".yml")
  }

  /** The selection rule: a file, not a directory, with a YAML extension, and not hidden unless hidden files are wanted. */
  predicate Selected(e: WalkEvent, includeHidden: bool)
  {
    && e.Visited?
    && !e.isDir
    && HasYamlExtension(Base(e.path))
    && (includeHidden || !IsHidden(e.path))
  }

  /**
   For a file path split into directory, last element and trailing
   separators, selection is decided by the last element alone: a YAML
   extension, and no leading dot unless hidden files are wanted.
   */
  lemma SelectedByName(dir: string, name: string, slashes: string, includeHidden: bool)
    requires IsSplit(dir, name, slashes)
    ensures Selected(Visited(dir + name + slashes, false), includeHidden)
        <==> HasYamlExtension(name) && (includeHidden || name[0] != '.')
  {
    BaseOfSplit(dir, name, slashes);
    HiddenIffDotName(dir, name, slashes);
  }

  /** The paths of the selected entries, in walk order: the reference the callback is measured against. */
  function SelectedPaths(walk: seq<WalkEvent>, includeHidden: bool): seq<string>
    decreases |walk|
  {
    if |walk| == 0 then []
    else
      var last := walk[|walk| - 1];
      SelectedPaths(walk[..|walk| - 1], includeHidden) + (if Selected(last, includeHidden) then [last.path] else [])
  }

  /** Visiting one more entry extends the selected paths by that entry's path exactly when it is selected. */
  lemma SelectedPathsSnoc(walk: seq<WalkEvent>, e: WalkEvent, includeHidden: bool)
    ensures SelectedPaths(walk + [e], includeHidden)
         == SelectedPaths(walk, includeHidden) + (if Selected(e, includeHidden) then [e.path] else [])
  {
    assert (walk + [e])[..|walk|] == walk;
  }

  /** No name ends in both ".yaml" and ".yml". */
  lemma ExtensionsAreExclusive(name: string)
    ensures !(HasSuffix(name, ".yaml") && HasSuffix(name, ".yml"))
  {
    if HasSuffix(name, ".yml") {
      assert name[|name| - 4] == ".yml"[0];
      assert !HasSuffix(name, ".yaml") by {
        if |name| >= 5 {
          assert name[|name| - 4] == name[|name| - 5..][1];
        }
      }
    }
  }

  /** The callback appends a visited file exactly once when it is selected, and not at all otherwise. */
  lemma AppendedOnce(path: string, includeHidden: bool)
    ensures Appended(path, includeHidden, YamlPatterns)
         == if Selected(Visited(path, false), includeHidden) then [path] else []
  {
    MatchBaseIsSuffix(".yaml", path);
    MatchBaseIsSuffix(".yml", path);
    ExtensionsAreExclusive(Base(path));
    assert YamlPatterns[1..] == [StarThen(".yml")];
    assert YamlPatterns[1..][1..] == [];
  }

  /** Without walk errors, `findYaml` returns exactly the selected paths, in walk order and each once. */
  lemma {:induction false} FindYamlSelects(walk: seq<WalkEvent>, excluded: string, includeHidden: bool)
    requires forall e | e in walk :: e.Visited?
    ensures FindYaml(walk, excluded, includeHidden) == Ok(SelectedPaths(walk, includeHidden))
    decreases |walk|
  {
    if |walk| > 0 {
      var init := walk[..|walk| - 1];
      var last := walk[|walk| - 1];
      assert forall e | e in init :: e in walk;
      assert last in walk;
      FindYamlSelects(init, excluded, includeHidden);
      var found := SelectedPaths(init, includeHidden);
      if last.isDir {
        assert FindYaml(walk, excluded, includeHidden) == Ok(found);
        assert SelectedPaths(walk, includeHidden) == found + [];
        assert found + [] == found;
      } else {
        assert last == Visited(last.path, false);
        AppendedOnce(last.path, includeHidden);
        assert FindYaml(walk, excluded, includeHidden) == Ok(found + Appended(last.path, includeHidden, YamlPatterns));
      }
    }
  }

  /** The first error the walk reports is the error `findYaml` returns, and no matches come with it. */
  lemma {:induction false} FindYamlStopsAtError(before: seq<WalkEvent>, path: string, error: string, after: seq<WalkEvent>, excluded: string, includeHidden: bool)
    requires forall e | e in before :: e.Visited?
    ensures FindYaml(before + [Unreadable(path, error)] + after, excluded, includeHidden) == Err(error)
    decreases |after|
  {
    var walk := before + [Unreadable(path, error)] + after;
    if |after| == 0 {
      assert walk[..|walk| - 1] == before;
      FindYamlSelects(before, excluded, includeHidden);
    } else {
      assert walk[..|walk| - 1] == before + [Unreadable(path, error)] + after[..|after| - 1];
      FindYamlStopsAtError(before, path, error, after[..|after| - 1], excluded, includeHidden);
    }
  }

  /** The `excluded` argument has no effect on the result. */
  lemma {:induction false} ExcludedIsIgnored(walk: seq<WalkEvent>, excluded1: string, excluded2: string, includeHidden: bool)
    ensures FindYaml(walk, excluded1, includeHidden) == FindYaml(walk, excluded2, includeHidden)
    decreases |walk|
  {
    if |walk| > 0 {
      ExcludedIsIgnored(walk[..|walk| - 1], excluded1, excluded2, includeHidden);
    }
  }

  /** A path is among the selected paths exactly when some walk entry for it passes the selection rule. */
  lemma {:induction false} SelectedMembership(walk: seq<WalkEvent>, includeHidden: bool, p: string)
    ensures p in SelectedPaths(walk, includeHidden)
        <==> exists e | e in walk :: e.path == p && Selected(e, includeHidden)
    decreases |walk|
  {
    if |walk| > 0 {
      var init := walk[..|walk| - 1];
      var last := walk[|walk| - 1];
      assert walk == init + [last];
      SelectedMembership(init, includeHidden, p);
      if exists e | e in walk :: e.path == p && Selected(e, includeHidden) {
        var e :| e in walk && e.path == p && Selected(e, includeHidden);
        if e != last {
          assert e in init;
        }
      }
    }
  }

  /** Paths the walk visits once are selected at most once: the result has no duplicates. */
  lemma {:induction false} SelectedAreDistinct(walk: seq<WalkEvent>, includeHidden: bool)
    requires forall i, j | 0 <= i < j < |walk| :: walk[i].path != walk[j].path
    ensures var r := SelectedPaths(walk, includeHidden);
            forall i, j | 0 <= i < j < |r| :: r[i] != r[j]
    decreases |walk|
  {
    if |walk| > 0 {
      var init := walk[..|walk| - 1];
      var last := walk[|walk| - 1];
      SelectedAreDistinct(init, includeHidden);
      SelectedMembership(init, includeHidden, last.path);
      assert last.path !in SelectedPaths(init, includeHidden) by {
        forall e | e in init
          ensures e.path != last.path
        {
          var k :| 0 <= k < |init| && init[k] == e;
        }
      }
    }
  }
}
