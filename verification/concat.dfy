/**
 The orchestration in `main` once the flags are read: find the matches,
 sort them, and for each file print a separator line followed by the
 file's reformatted stream.

 Reading a file and decoding it are given as `source`, which maps a path to
 the outcomes of the decoder opened on that file.
 */
module Concat {
  import opened Outcomes
  import opened Yaml
  import opened Reformat
  import opened Ordering
  import opened Selection

  /** How a run ends. */
  datatype Status =
    | Completed
    | WalkFailed(error: string)                // `findYaml` failed: exit code 101
    | FormatFailed(path: string, error: string) // `formatStream` failed on `path`: `log.Fatalf`

  /** Standard output and how the run ended. */
  datatype Report = Report(stdout: string, status: Status)

  /** What `main` prints to standard output when the walk fails. */
  const WalkErrorNotice: string := "# error?\n"

  /** The process exit code for each way a run ends (`log.Fatalf` exits with 1). */
  function ExitCode(s: Status): (code: int)
    ensures code == 0 <==> s.Completed?
  {
    match s
    case Completed => 0
    case WalkFailed(_) => 101
    case FormatFailed(_, _) => 1
  }

  /** The pieces written for the files, in order: for each, a separator and then its documents' layout. */
  function RunLayout(files: seq<string>, source: string -> seq<Decoded>): (ps: seq<Piece>)
    ensures |files| > 0 ==> |ps| > 0 && ps[0] == Separator
    decreases |files|
  {
    if |files| == 0 then []
    else RunLayout(files[..|files| - 1], source) + [Separator] + Layout(Documents(source(files[|files| - 1])))
  }

  /** The number of separators written inside the files' streams: the sum of max(k - 1, 0) over the files. */
  function IntraSeparators(files: seq<string>, source: string -> seq<Decoded>): nat
    decreases |files|
  {
    if |files| == 0 then 0
    else
      var k := |Documents(source(files[|files| - 1]))|;
      IntraSeparators(files[..|files| - 1], source) + (if k == 0 then 0 else k - 1)
  }

  /** Every file's documents, file after file. */
  function AllDocuments(files: seq<string>, source: string -> seq<Decoded>): seq<Node>
    decreases |files|
  {
    if |files| == 0 then []
    else AllDocuments(files[..|files| - 1], source) + Documents(source(files[|files| - 1]))
  }

  /** The position of the first file whose stream fails to decode, or the number of files if none does. */
  function FirstFailure(files: seq<string>, source: string -> seq<Decoded>): (j: nat)
    ensures j <= |files|
    ensures forall i | 0 <= i < j :: !Ending(source(files[i])).Error?
    ensures j < |files| ==> Ending(source(files[j])).Error?
    decreases |files|
  {
    if |files| == 0 || Ending(source(files[0])).Error? then 0
    else 1 + FirstFailure(files[1..], source)
  }

  /**
   What a run over `files` (already sorted) prints and how it ends: the
   output of every file before the first that fails to decode, then the
   separator for that file, whose own partial output is never copied out
   because `log.Fatalf` ends the process first.
   */
  function Expected(files: seq<string>, source: string -> seq<Decoded>, enc: Encoder, indent: int): Report
  {
    var j := FirstFailure(files, source);
    if j < |files| then
      Report(Render(RunLayout(files[..j], source), enc, indent) + Marker,
             FormatFailed(files[j], Ending(source(files[j])).message))
    else
      Report(Render(RunLayout(files, source), enc, indent), Completed)
  }

  /** One more file adds a separator line and that file's formatted stream to the output. */
  lemma RenderRunSnoc(files: seq<string>, i: nat, source: string -> seq<Decoded>, enc: Encoder, indent: int)
    requires i < |files|
    ensures Render(RunLayout(files[..i + 1], source), enc, indent)
         == Render(RunLayout(files[..i], source), enc, indent) + Marker
            + Render(Layout(Documents(source(files[i]))), enc, indent)
  {
    var next := files[..i + 1];
    assert next[..i] == files[..i];
    var piece := Layout(Documents(source(files[i])));
    RenderAppend(RunLayout(files[..i], source) + [Separator], piece, enc, indent);
    RenderAppend(RunLayout(files[..i], source), [Separator], enc, indent);
    assert [Separator][..0] == [];
  }

  /** The loop over the sorted matches: a separator, then the file's formatted stream. */
  method Concatenate(files: seq<string>, source: string -> seq<Decoded>, enc: Encoder, indent: int)
    returns (stdout: string, status: Status)
    ensures Report(stdout, status) == Expected(files, source, enc, indent)
  {
    stdout := "";
    var i := 0;
    while i < |files|
      invariant i <= FirstFailure(files, source)
      invariant stdout == Render(RunLayout(files[..i], source), enc, indent)
    {
      stdout := stdout + Marker;
      var out, err := FormatStream(source(files[i]), enc, indent);
      if err.Some? {
        status := FormatFailed(files[i], err.value);
        return;
      }
      RenderRunSnoc(files, i, source, enc, indent);
      stdout := stdout + out;
      i := i + 1;
    }
    assert files[..i] == files;
    status := Completed;
  }

  /**
   `main` after flag parsing: a failed walk prints the error notice and
   nothing else; otherwise the sorted matches are concatenated.
   */
  method Run(walk: seq<WalkEvent>, excluded: string, includeHidden: bool,
             source: string -> seq<Decoded>, enc: Encoder, indent: int)
    returns (stdout: string, status: Status)
    ensures var found := FindYaml(walk, excluded, includeHidden);
            found.Err? ==> stdout == WalkErrorNotice && status == WalkFailed(found.error)
    ensures var found := FindYaml(walk, excluded, includeHidden);
            found.Ok? ==> Report(stdout, status) == Expected(SortStrings(found.value), source, enc, indent)
  {
    var found := FindYaml(walk, excluded, includeHidden);
    var matches := SortStrings(if found.Ok? then found.value else []);
    if found.Err? {
      stdout, status := WalkErrorNotice, WalkFailed(found.error);
      return;
    }
    stdout, status := Concatenate(matches, source, enc, indent);
  }

  /**
   Separator count of a whole run: one before each file plus
   max(k - 1, 0) inside each file with k documents; and every document of
   every file appears, files in the given order and documents in stream order.
   */
  lemma {:induction false} RunCounts(files: seq<string>, source: string -> seq<Decoded>)
    ensures SeparatorCount(RunLayout(files, source)) == |files| + IntraSeparators(files, source)
    ensures Bodies(RunLayout(files, source)) == AllDocuments(files, source)
    decreases |files|
  {
    if |files| > 0 {
      var init := files[..|files| - 1];
      var docs := Documents(source(files[|files| - 1]));
      var front, layout := RunLayout(init, source), Layout(docs);
      RunCounts(init, source);
      LayoutCounts(docs);
      assert [Separator][..0] == [];
      SeparatorCountAppend(front + [Separator], layout);
      SeparatorCountAppend(front, [Separator]);
      BodiesAppend(front + [Separator], layout);
      BodiesAppend(front, [Separator]);
    }
  }

  /** Every document is directly preceded by a separator: no two documents are written back to back. */
  predicate NoGluedDocuments(ps: seq<Piece>)
  {
    forall j | 0 <= j < |ps| && ps[j].Body? :: 0 < j && ps[j - 1].Separator?
  }

  /**
   Every document in the combined output comes directly after a separator
   line, so two encoded documents are never joined, neither inside a file
   nor where one file's output meets the next file's separator.
   */
  lemma {:induction false} RunNeverGluesDocuments(files: seq<string>, source: string -> seq<Decoded>)
    ensures NoGluedDocuments(RunLayout(files, source))
    decreases |files|
  {
    if |files| > 0 {
      var init := files[..|files| - 1];
      var docs := Documents(source(files[|files| - 1]));
      var front := RunLayout(init, source);
      var layout := Layout(docs);
      var ps := RunLayout(files, source);
      assert ps == front + [Separator] + layout;
      RunNeverGluesDocuments(init, source);
      LayoutShape(docs);
      forall j | 0 <= j < |ps| && ps[j].Body?
        ensures 0 < j && ps[j - 1].Separator?
      {
        if j < |front| {
          assert ps[j] == front[j] && ps[j - 1] == front[j - 1];
        } else if j == |front| + 1 {
          assert ps[j - 1] == Separator;
        } else {
          var k := j - |front| - 1;
          assert ps[j] == layout[k] && ps[j - 1] == layout[k - 1];
          assert (k - 1) % 2 == 1;
        }
      }
    }
  }

  /** Every separator is directly followed by a document: no empty document appears in the output. */
  predicate NoEmptyDocument(ps: seq<Piece>)
  {
    forall j | 0 <= j < |ps| && ps[j].Separator? :: j + 1 < |ps| && ps[j + 1].Body?
  }

  lemma NoEmptyDocumentJoin(a: seq<Piece>, b: seq<Piece>)
    ensures NoEmptyDocument(a + [Separator] + b)
        <==> NoEmptyDocument(a) && |b| > 0 && b[0].Body? && NoEmptyDocument(b)
  {
    var ps := a + [Separator] + b;
    if NoEmptyDocument(ps) {
      assert |b| > 0 && b[0].Body? by {
        assert ps[|a|].Separator?;
        assert |a| + 1 < |ps|;
        assert ps[|a| + 1] == b[0];
      }
      forall j | 0 <= j < |a| && a[j].Separator?
        ensures j + 1 < |a| && a[j + 1].Body?
      {
        assert ps[j].Separator?;
        assert ps[|a|].Separator?;
        assert j + 1 != |a|;
        assert ps[j + 1] == a[j + 1];
      }
      forall j | 0 <= j < |b| && b[j].Separator?
        ensures j + 1 < |b| && b[j + 1].Body?
      {
        assert ps[|a| + 1 + j] == b[j];
        assert |a| + 1 + j + 1 < |ps|;
        assert ps[|a| + 1 + j + 1] == b[j + 1];
      }
    }
  }

  /** A file's own layout has no empty document, and it starts with a document exactly when the file has one. */
  lemma LayoutEnds(docs: seq<Node>)
    ensures NoEmptyDocument(Layout(docs))
    ensures |Layout(docs)| > 0 <==> |docs| > 0
    ensures |docs| > 0 ==> Layout(docs)[0].Body?
  {
    LayoutShape(docs);
  }

  /**
   The two separator mechanisms never produce an empty document (a separator
   followed by another separator or by the end of output) exactly when every
   file yields at least one document.
   */
  lemma {:induction false} NoEmptyDocumentIffNoEmptyFile(files: seq<string>, source: string -> seq<Decoded>)
    ensures NoEmptyDocument(RunLayout(files, source))
        <==> forall i | 0 <= i < |files| :: |Documents(source(files[i]))| > 0
    decreases |files|
  {
    if |files| > 0 {
      var init := files[..|files| - 1];
      var docs := Documents(source(files[|files| - 1]));
      NoEmptyDocumentIffNoEmptyFile(init, source);
      NoEmptyDocumentJoin(RunLayout(init, source), Layout(docs));
      LayoutEnds(docs);
      assert forall i | 0 <= i < |init| :: init[i] == files[i];
    }
  }
}
