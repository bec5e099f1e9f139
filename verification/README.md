# yaml-concat, modelled in Dafny

`yaml-concat` is a small Go command. It walks a directory for `*.yaml` and
`*.yml` files, sorts the matches, and writes one YAML stream to standard
output. For every file it prints a `---` line, then re-encodes each document
of the file at the chosen indentation. Within a file, documents are separated
by `---` lines.

This project models the logic of `main.go` that decides what ends up in that
stream. The YAML library, the filesystem and the process are treated as
opaque.

- **`formatStream`** (`format_stream.dfy`, module `Reformat`).
  - The decoder is the list of outcomes its successive `Decode` calls return: a
    document, end of input, or a parse error. A decoder whose listed outcomes
    are used up is at end of input.
  - The encoder is a function parameter from a document and an indentation to
    text.
  - The method `FormatStream` follows the Go loop step by step, including the
    look-ahead decode that decides whether a separator is written.
  - Its result is described by `Layout`: the documents with a separator
    strictly between each neighbouring pair. `LayoutIsUnique` shows that this
    is the only way to alternate documents and separators.
- **`isHidden` and the walk callback of `findYaml`** (`paths.dfy`, module
  `Paths`; `find_yaml.dfy`, module `Selection`).
  - `filepath.Base` is modelled exactly for `/`-separated paths, including its
    degenerate results "." and "/".
  - `filepath.Match` is modelled for the two fixed patterns only, each a `*`
    followed by a literal.
  - The walk is the list of calls the callback receives.
  - `FindYaml` follows the callback: it stops at the first error, skips
    directories, tries both patterns and applies the hidden test.
  - `SelectedPaths` is the plain selection rule. `FindYamlSelects` shows the
    two agree.
- **The loop in `main`** (`concat.dfy`, module `Concat`).
  - The matches are sorted with `sort.Strings`, modelled in `ordering.dfy`
    (module `Ordering`) as a sort into Go's byte-wise string order. The result
    is proved to be the unique sorted permutation.
  - For each file, `---` is printed and then the file's formatted stream.
  - A walk error prints `# error?` and exits with 101.
  - A parse error ends the run through `log.Fatalf`, after the separator for
    the failing file was printed and before its buffered output is copied out.
- **A worked run** (`scenario.dfy`, module `Scenario`).
  - The directory holds `a.yml` with one document, `b.yaml` with two, and a
    hidden `.c.yaml`.
  - It yields the two visible files in sorted order, three documents and three
    separator lines.

`yaml.dfy` holds the boundary with the YAML library. `outcomes.dfy` holds
`Option` and `Result`, and `affixes.dfy` holds the prefix and suffix tests
of the `strings` package.

## Behaviour worth knowing

- **The `--exclude` option has no effect.** The flag is declared as "files to
  exclude" (`main.go:27`) and its value is passed to `findYaml`. `findYaml`
  never reads it (`main.go:109-158`). `Selection.ExcludedIsIgnored` states
  this.
- **An empty file produces an empty document.** `main` prints `---` before
  every file, whatever the file holds. The TODO at `main.go:49` names the
  risk of empty documents. `Concat.NoEmptyDocumentIffNoEmptyFile` proves the
  exact condition: every separator is followed by a document if and only if
  every file yields at least one document. A file without documents
  therefore leaves two adjacent separators, or a trailing one. The other
  direction always holds: `Concat.RunNeverGluesDocuments` proves that every
  document comes directly after a separator, so documents are never joined.
- **What is printed when a file fails to parse.** The run stops at the first
  file whose stream ends in a parse error, and `log.Fatalf` exits with
  status 1. Standard output then holds the output of every earlier file,
  followed by the `---` line printed for the failing file. None of the
  failing file's documents is printed, because its buffer is copied out
  only after `formatStream` succeeds. `Concat.Expected` states this output
  and `Concat.Concatenate` is proved to produce it.

## Model

| member | source | states |
|---|---|---|
| `Reformat.FormatStream` | main.go:71-92 | The text written is the documents decoded before the first non-document outcome, in order, each encoded at `indent`, with one `---` line strictly between neighbours. It ends with the last document's encoding even when a parse error follows, and it is empty with no error when the first decode reports end of input. An error comes back exactly when the loop stops at a parse error, and it carries the parser's message. |
| `Reformat.DocumentsShape` | main.go:74-86 | The documents the loop encodes are exactly the leading run of successful decodes: each is the outcome at its position, and the outcome right after them is not a document. |
| `Reformat.Ending` | main.go:88-91 | The outcome that ends the loop is end of input or a parse error, never a document. |
| `Reformat.StoppedStream` | main.go:83-91 | For a decoder that yields k documents and then stops, exactly those k documents are encoded. The stop, end of input or a parse error, is what the loop ends on. Later outcomes play no part. |
| `Reformat.LayoutShape` | main.go:83-85 | k documents give 2k - 1 pieces when k > 0: document j at position 2j and a separator at each odd position. So there is no separator before the first document or after the last. |
| `Reformat.LayoutCounts` | main.go:75-86 | k documents produce exactly max(k - 1, 0) separators, and exactly the k documents, in their original order. |
| `Reformat.LayoutIsUnique` | main.go:75-86 | A piece sequence is the layout of `docs` if and only if it alternates document and separator, starting and ending with a document, and its documents are `docs`. |
| `Reformat.OneIndentForAll` | main.go:76-77 | The output depends on the encoder only through its results at the one caller-supplied indentation. So every document is encoded with the same `indent`. |
| `Paths.BaseShape` | main.go:104 | `filepath.Base` never returns the empty string. Its result is "/" or contains no separator. |
| `Paths.BaseOfSplit` | main.go:104 | The base name of `dir + name + slashes` is `name` whatever the directory part, when `name` has no separator and only separators follow it. |
| `Paths.SplitExists` | main.go:102-107 | Every path other than the empty one and those made only of separators splits into a directory part, a last element and trailing separators. So the statements about split paths cover every path but the two degenerate kinds. |
| `Paths.HiddenIffDotName` | main.go:102-107 | `isHidden` holds if and only if the last path element begins with '.'. Dots in the directories above it do not matter. |
| `Paths.HiddenDegenerate` | main.go:102-107 | The empty path counts as hidden, because its base is ".". A path made only of separators does not count as hidden, because its base is "/". |
| `Paths.MatchBaseIsSuffix` | main.go:133 | On a base name, the pattern `*` + extension matches exactly the names that end in the extension. |
| `Selection.FindYaml` | main.go:109-158 | `findYaml` fails if and only if the walk reported an error for some path. |
| `Selection.FindYamlSelects` | main.go:123-153 | Without walk errors, `findYaml` returns exactly the paths that pass the selection rule, in walk order. |
| `Selection.FindYamlStopsAtError` | main.go:123-156 | The first error the walk reports is the error returned, and no matches come with it, whatever the walk would have visited afterwards. |
| `Selection.SelectedByName` | main.go:127-149 | A file is kept if and only if its last path element ends in `.yaml` or `.yml` and, unless hidden files are wanted, does not begin with '.'. |
| `Selection.ExtensionsAreExclusive` | main.go:114-117 | No name ends in both `.yaml` and `.yml`, so the two patterns never both match. |
| `Selection.AppendedOnce` | main.go:132-150 | The pattern loop appends a selected file's path once and any other path not at all. |
| `Selection.SelectedMembership` | main.go:127-149 | A path is in the result if and only if some walk entry for it passes the selection rule. Directories never do. |
| `Selection.SelectedAreDistinct` | main.go:132-150 | When the walk visits each path once, the result has no duplicates. |
| `Selection.ExcludedIsIgnored` | main.go:109-158 | The result is the same for every value of the `excluded` argument. |
| `Ordering.Insert` | main.go:42 | Inserting into a sorted list keeps it sorted and adds exactly the new string to its contents. |
| `Ordering.SortStrings` | main.go:42 | The sorted matches are in ascending byte-wise string order and are a permutation of the matches. |
| `Ordering.SortedIsUnique` | main.go:42 | Two sorted permutations of each other are equal. So the sorted matches depend neither on the sorting algorithm nor on the order the walk found the files in. |
| `Concat.ExitCode` | main.go:44-64 | The run exits with status 0 if and only if it completed. The non-zero codes are the function's definition and are not stated by its contract: 101 for a walk failure (`main.go:46`) and 1 for a parse failure, the status `log.Fatalf` exits with (`main.go:63`). |
| `Concat.RunLayout` | main.go:48-53 | When there is at least one match, the combined output begins with a separator line. |
| `Concat.FirstFailure` | main.go:48-64 | This is the position of the first file whose stream ends in a parse error. Every file before it ends cleanly. |
| `Concat.Concatenate` | main.go:48-53 | Each file in order gets `---` and then its formatted stream. At the first file that fails to parse, the output so far plus that file's `---` is what was printed, and the run fails with that file's path and error. |
| `Concat.Run` | main.go:39-53 | A walk error prints `# error?` and nothing else, and the run fails with that error. Otherwise the output is that of `Concatenate` over the sorted matches. |
| `Concat.RunCounts` | main.go:48-53 | For N files, the combined output holds N + Σ max(kᵢ - 1, 0) separator lines. It holds every file's documents, files in the given order and documents in stream order. |
| `Concat.RunNeverGluesDocuments` | main.go:48-53 | In the combined output every document comes directly after a separator line. So no two documents are ever joined, neither inside a file nor where a file's per-file `---` follows the previous file's last document. |
| `Concat.NoEmptyDocumentIffNoEmptyFile` | main.go:48-53 | Across files, every separator is followed by a document if and only if every file yields at least one document. |
| `Scenario.ScenarioSelection` | main.go:123-153 | A walk of `root`, `b.yaml`, `.c.yaml` and `a.yml`, without hidden files, selects `b.yaml` and `a.yml` in walk order. |
| `Scenario.ScenarioSorted` | main.go:42 | Sorting puts `a.yml` before `b.yaml`. |
| `Scenario.ScenarioOutput` | main.go:48-53 | With one document in `a.yml` and two in `b.yaml`, both files decode. The output holds three documents in the order a, x, y and exactly three separator lines; piece by piece it is `---`, a, `---`, x, `---`, y. |
| `Scenario.ScenarioRun` | main.go:39-53 | From the walk to standard output: the walk succeeds, and the run over its sorted matches completes, printing the pieces of `a.yml` then `b.yaml` at indentation 2. Together with `ScenarioOutput` that is `---`, the document of `a.yml`, `---`, and the two documents of `b.yaml` with `---` between them. |

## Left out

- Flag parsing and `isFlagPassed` (`main.go:24-37`, `160-168`) are omitted, including the usage message and exit code 102. They are a thin layer over the pflag library's global state. The path, indentation, hidden and exclude settings are parameters.
- Opening and closing files and `dumpStream` (`main.go:56-60`, `65-69`, `94-100`) are omitted. This covers the overwrite mode, which `main` never selects, and the copy of a file's buffer to standard output. A file's content arrives through the `source` parameter as its decoder outcomes. Open, read, close and write failures are not modelled.
- Encoder failures (`main.go:78-80`) and the effect of `SetIndent` are omitted. The encoder is foreign code; it is a function parameter that always returns text. `SetIndent`'s own validation of the width is not modelled.
- YAML decoding and encoding are omitted. Documents are opaque trees, and round-trip fidelity and idempotence of the library are not stated.
- The order and internals of `filepath.Walk` (`main.go:123`) are omitted. The walk is the list of calls the callback receives, in whatever order they come. How the walk reports unreadable directories is not modelled.
- General `filepath.Match` semantics and the bad-pattern branch (`main.go:134-138`, exit code 100) are omitted. The two patterns are fixed and well-formed, so that branch cannot be taken.
- Messages to standard error (`main.go:51`, `111`) and the text `log.Fatalf` writes there are omitted. They do not affect standard output.
- Bytes are modelled as characters. Go's strings are bytes; here a path and the encoder's text are `seq<char>`, and `Ordering.LexLeq` compares characters. For UTF-8 text this gives the same order as comparing bytes.
- `Paths.Base` models Unix only. It treats '/' as the only separator and has no volume names, as `filepath.Base` behaves on Unix systems.
