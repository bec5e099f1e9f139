/**
 A worked run: a directory `root` holding `a.yml` with one document,
 `b.yaml` with two, and a hidden `.c.yaml`, walked in an order other than
 the sorted one and run without hidden files.
 */
module Scenario {
  import opened Outcomes
  import opened Yaml
  import opened Affixes
  import opened Paths
  import opened Reformat
  import opened Ordering
  import opened Selection
  import opened Concat

  const KV: Node := Mapping([(Scalar("k"), Scalar("v"))])
  const X1: Node := Mapping([(Scalar("x"), Scalar("1"))])
  const Y2: Node := Mapping([(Scalar("y"), Scalar("2"))])

  /** The names of the three files in the directory: two visible YAML files and a hidden one. */
  const A: string := "a.yml"
  const B: string := "b.yaml"
  const C: string := ".c.yaml"

  /** The calls the walk makes: the directory itself, then its files in an order other than the sorted one. */
  function DirWalk(root: string): seq<WalkEvent>
  {
    [Visited(root, true), Visited(root + "/" + B, false), Visited(root + "/" + C, false), Visited(root + "/" + A, false)]
  }

  /** What the decoder yields for each file under `root`; anything else holds one empty document. */
  function Contents(root: string): string -> seq<Decoded>
  {
    p => if p == root + "/" + A then [Doc(KV), EOF]
         else if p == root + "/" + B then [Doc(X1), Doc(Y2), EOF]
         else [Doc(Null), EOF]
  }

  /** Under one directory, a file is kept exactly when its own name has a YAML extension and no leading dot. */
  lemma KeptByName(root: string, name: string)
    requires |name| > 0 && NoSlash(name)
    ensures Selected(Visited(root + "/" + name, false), false) <==> HasYamlExtension(name) && name[0] != '.'
  {
    SelectedByName(root + "/", name, "", false);
    assert root + "/" + name + "" == root + "/" + name;
  }

  /** Of the three files, the two visible YAML files pass the selection rule and the hidden one does not. */
  lemma ScenarioEntries(root: string)
    ensures Selected(Visited(root + "/" + B, false), false)
    ensures !Selected(Visited(root + "/" + C, false), false)
    ensures Selected(Visited(root + "/" + A, false), false)
  {
    assert B[1..] == ".yaml";
    KeptByName(root, B);
    KeptByName(root, C);
    assert A[1..] == ".yml";
    KeptByName(root, A);
  }

  /** The selection rule, applied entry by entry, keeps the two visible YAML files in walk order. */
  lemma ScenarioSelectedPaths(root: string)
    ensures SelectedPaths(DirWalk(root), false) == [root + "/" + B, root + "/" + A]
  {
    var eb, ec, ea := Visited(root + "/" + B, false), Visited(root + "/" + C, false), Visited(root + "/" + A, false);
    var w0 := [Visited(root, true)];
    assert DirWalk(root) == w0 + [eb] + [ec] + [ea];
    assert SelectedPaths(w0, false) == [] by {
      SelectedPathsSnoc([], Visited(root, true), false);
      assert [] + w0 == w0;
    }
    ScenarioEntries(root);
    SelectedPathsSnoc(w0, eb, false);
    assert SelectedPaths(w0 + [eb], false) == [eb.path];
    SelectedPathsSnoc(w0 + [eb], ec, false);
    assert SelectedPaths(w0 + [eb] + [ec], false) == [eb.path];
    SelectedPathsSnoc(w0 + [eb] + [ec], ea, false);
  }

  /** The walk callback keeps the two visible YAML files, in walk order, and drops the directory and the hidden file. */
  lemma ScenarioSelection(root: string)
    ensures FindYaml(DirWalk(root), "", false) == Ok([root + "/" + B, root + "/" + A])
  {
    var walk := DirWalk(root);
    assert forall k | 0 <= k < |walk| :: walk[k].Visited?;
    FindYamlSelects(walk, "", false);
    ScenarioSelectedPaths(root);
  }

  /** The matches are handed on in sorted order, `a.yml` before `b.yaml`. */
  lemma ScenarioSorted(root: string)
    ensures SortStrings([root + "/" + B, root + "/" + A]) == [root + "/" + A, root + "/" + B]
  {
    assert A[0] < B[0];
    LexLeqCommonPrefix(root + "/", A, B);
    var sorted := [root + "/" + A, root + "/" + B];
    assert Sorted(sorted);
    assert multiset(sorted) == multiset([root + "/" + B, root + "/" + A]);
    SortedIsUnique(SortStrings([root + "/" + B, root + "/" + A]), sorted);
  }

  /**
   Both files decode, three documents come out in order, and the separator
   line appears exactly three times: one before each file and one between
   the two documents of `b.yaml`.
   */
  lemma ScenarioOutput(root: string)
    ensures var files := [root + "/" + A, root + "/" + B];
            && FirstFailure(files, Contents(root)) == 2
            && SeparatorCount(RunLayout(files, Contents(root))) == 3
            && Bodies(RunLayout(files, Contents(root))) == [KV, X1, Y2]
            && RunLayout(files, Contents(root))
               == [Separator, Body(KV), Separator, Body(X1), Separator, Body(Y2)]
  {
    var files := [root + "/" + A, root + "/" + B];
    var source := Contents(root);
    assert files[0] != files[1] by {
      assert files[0][|root| + 1] == A[0] != B[0] == files[1][|root| + 1];
    }
    assert source(files[0]) == [Doc(KV), EOF];
    assert source(files[1]) == [Doc(X1), Doc(Y2), EOF];
    assert Documents(source(files[0])) == [KV];
    assert Documents(source(files[1])) == [X1, Y2];
    RunCounts(files, source);
    var first := files[..|files| - 1];
    assert first == [files[0]];
    assert first[..|first| - 1] == [];
    assert IntraSeparators(first, source) == 0;
    assert IntraSeparators(files, source) == 1;
    assert AllDocuments(first, source) == [KV];
    assert AllDocuments(files, source) == [KV] + [X1, Y2];
    assert Layout([KV]) == [Body(KV)];
    assert Layout([X1, Y2]) == [Body(X1), Separator, Body(Y2)] by {
      assert [X1, Y2][..1] == [X1];
    }
    assert RunLayout(first, source) == [Separator, Body(KV)] by {
      assert RunLayout([], source) == [];
    }
  }

  /**
   The whole run, from the walk to standard output: the walk succeeds, and
   concatenating its sorted matches completes and prints `---`, the document
   of `a.yml`, `---`, and the two documents of `b.yaml` with `---` between
   them, each at indentation 2.
   */
  lemma ScenarioRun(root: string, enc: Encoder)
    ensures var found := FindYaml(DirWalk(root), "", false);
            && found.Ok?
            && Expected(SortStrings(found.value), Contents(root), enc, 2)
               == Report(Render(RunLayout([root + "/" + A, root + "/" + B], Contents(root)), enc, 2), Completed)
  {
    ScenarioSelection(root);
    ScenarioSorted(root);
    ScenarioOutput(root);
  }
}
