# Python analyser plugin — a Dafny model

This project models the core of `PythonAnalyser`, the plugin that walks a
project directory and turns it into a report for a code-metrics visualiser.
For each Python file the report gives four metrics:

- `loc`: code lines
- `cloc`: comment lines
- `nom`: function and method definitions
- `tloc`: total lines

It models:

- **`__calculate_metrics`** (`LineMetrics`). This is a two-state line
  classifier over the `"\n"`-separated segments of a file. It tracks whether
  it is outside a triple-quoted block or inside one, and remembers the
  opening marker. A definition count follows. It comes from the syntax tree
  (`__count_functions_and_methods`, in `SyntaxTree`). When the text does not
  parse, a textual `def …:` scan is used instead.
- **`__build_hierarchy`** (`Hierarchy`, `HierarchyProperties`). This is the
  recursive walk over a directory tree, given as a value (`FileSystem`). It
  goes through each directory's listing in sorted order. It skips:
  - hidden entries;
  - directories named in the exclusion list;
  - files that an exclusion pattern matches;
  - files that are not `.py`;
  - subfolders left with no children.

  `__analyse_file` reports a file even when reading or measuring it fails.
  That file gets zero metrics and the current time.
- **The parameter handling of `analyse`** (`Analyser`). This covers:
  - the comma-separated `exclude_directories`, `exclude_filenames` and
    `metrics` parameters (`__parse_csv_param`);
  - the four-entry metric catalog and the choice of metrics from it;
  - the default title and description;
  - the two `ValueError`s, and the order in which they arise.

The Python `str` operations involved (`strip`, `split`, `count`,
`startswith`, `endswith`, `in`) are in `PyStr`, together with `Join`, the
inverse of `split` that the round-trip lemmas use. The `fnmatch` subset is in
`Glob`. The code-point order `sorted` uses is in `NameOrder`.

The imperative parts keep their form and are proved against specification
functions:

| Method | Form | Proved equal to |
|---|---|---|
| `ClassifyLines` | a `for` loop with `continue`, counters and the block flag | counts of `Kinds` |
| `CountDefLines` | the fallback loop | `HeuristicDefs` |
| `CountFunctionsAndMethods` | a worklist walk standing for `ast.walk` | `DefCount` |
| `BuildHierarchy` | a recursive method appending to `children` in a loop | `BuildNode` |

`AnalyseFile`, `CalculateMetrics` and `Analyse` are proved equal to
`FileNodeOf`, `MetricsOf` and `AnalysisOf`. The properties are proved as
contracts and lemmas about those functions.

Two consequences of the code worth stating:

- A trailing newline adds an empty segment, so `"def f():\n    pass\n"` has `tloc` 3 (`MetricExamples.TrailingNewlineCounts`).
- Every file node carries all four metrics. Only the report's `metrics` list follows the request (python_analyser_plugin/python_analyser.py:109-124, 343-348).

## Model

| member | source | states |
|---|---|---|
| PyStr.Strip | python_analyser_plugin/python_analyser.py:305 | `strip()` is empty exactly when the line is all whitespace, and otherwise starts and ends with non-whitespace |
| PyStr.StripTrims | python_analyser_plugin/python_analyser.py:305 | `strip()` returns the part of the line between a whitespace prefix and a whitespace suffix; with `Strip`'s contract this fixes the result |
| PyStr.IsSpace | python_analyser_plugin/python_analyser.py:149 | space, tab, newline and carriage return are whitespace; none of `#`, quotes, `,` and `:` is |
| PyStr.StripFixed | python_analyser_plugin/python_analyser.py:305 | a string with no whitespace at either end is left unchanged by `strip()` |
| PyStr.StripWithin | python_analyser_plugin/python_analyser.py:149 | `strip()` adds no character |
| PyStr.StripIdempotent | python_analyser_plugin/python_analyser.py:149 | stripping twice equals stripping once |
| PyStr.Split | python_analyser_plugin/python_analyser.py:295 | `split("\n")` yields one more piece than there are separators, and no piece contains the separator |
| PyStr.SplitFrom | python_analyser_plugin/python_analyser.py:147-149 | every character of a piece comes from the text that was split |
| PyStr.JoinSplit | python_analyser_plugin/python_analyser.py:295 | joining the pieces of a split gives back the original text |
| PyStr.SplitJoin | python_analyser_plugin/python_analyser.py:149 | splitting separator-free pieces joined by the separator gives back the pieces |
| PyStr.SplitPlain | python_analyser_plugin/python_analyser.py:295 | a text without the separator splits into itself alone |
| PyStr.SplitPrefix | python_analyser_plugin/python_analyser.py:295 | a separator-free head followed by the separator becomes a piece of its own |
| PyStr.SplitAt | python_analyser_plugin/python_analyser.py:295 | the first separator closes the first piece: the pieces are the text before it, then the pieces of the text after it |
| PyStr.Count | python_analyser_plugin/python_analyser.py:310-314 | the non-overlapping count is positive exactly when the marker occurs in the line |
| PyStr.CountTwo | python_analyser_plugin/python_analyser.py:310-314 | the count is at least two exactly when the marker occurs twice without overlap, which separates a line opening a block from a line holding a whole string |
| PyStr.ContainsAt | python_analyser_plugin/python_analyser.py:319 | `sub in s` holds exactly when `sub` occurs at some index of `s` |
| PyStr.OccursDrop | python_analyser_plugin/python_analyser.py:310-314 | occurrences in a suffix are the occurrences in the whole string, shifted |
| PyStr.StartsWith | python_analyser_plugin/python_analyser.py:206 | every string starts with the empty string, and a prefix is never longer than the string |
| PyStr.EndsWith | python_analyser_plugin/python_analyser.py:227 | every string ends with the empty string, and a suffix is never longer than the string |
| PyStr.Contains | python_analyser_plugin/python_analyser.py:319 | a contained string is no longer than the string, and a prefix is contained |
| SyntaxTree.DefCount | python_analyser_plugin/python_analyser.py:356-358 | the definitions in a tree are at most its nodes, and fewer unless the root itself is a definition |
| SyntaxTree.AllAppend | python_analyser_plugin/python_analyser.py:356 | definition counts and sizes add up over concatenated sibling lists |
| SyntaxTree.NestedDefinitionsCount | python_analyser_plugin/python_analyser.py:356-358 | a definition counts itself plus every definition nested in it at any depth |
| SyntaxTree.CountFunctionsAndMethods | python_analyser_plugin/python_analyser.py:350-359 | walking every node and counting `FunctionDef`/`AsyncFunctionDef` gives the number of definitions at any depth |
| LineMetrics.Step | python_analyser_plugin/python_analyser.py:304-327 | inside a block, and on a line that opens one, the line is a comment; a line is blank exactly when it is outside a block and strips to nothing; it is code exactly when it is outside a block and non-blank, and opens with neither `#` nor a triple quote |
| LineMetrics.PlainLine | python_analyser_plugin/python_analyser.py:324-327 | a line that opens no block leaves the scan outside; it is blank exactly when empty and a comment exactly when it starts with `#`, otherwise code |
| LineMetrics.Run | python_analyser_plugin/python_analyser.py:304-327 | scanning from outside a block, or from a triple-quote block, only ever reaches a state outside a block or inside a block opened by `"""` or `'''` |
| LineMetrics.Kinds | python_analyser_plugin/python_analyser.py:304-327 | the scan gives every line exactly one kind |
| LineMetrics.KindsPartition | python_analyser_plugin/python_analyser.py:304-327 | every line counts once, as code, comment or blank, so the three counts add up to the number of lines |
| LineMetrics.RunAppend | python_analyser_plugin/python_analyser.py:304-327 | the scan is a left fold: scanning a concatenation ends where scanning the second part from the first part's final state ends |
| LineMetrics.KindsAppend | python_analyser_plugin/python_analyser.py:304-327 | the kinds of a concatenation are the first part's kinds followed by the second part's, scanned from the first part's final state |
| LineMetrics.OpeningLine | python_analyser_plugin/python_analyser.py:308-316 | outside a block, a stripped line opening with a triple quote is one comment line; it opens a block on that marker exactly when the marker occurs once, and leaves the state outside when it occurs two or more times |
| LineMetrics.UnclosedBlock | python_analyser_plugin/python_analyser.py:317-322 | a block whose marker never appears again makes every remaining line a comment and stays open |
| LineMetrics.StaysInBlock | python_analyser_plugin/python_analyser.py:317-322 | inside a block, a line whose stripped text lacks the marker is a comment and leaves the block open |
| LineMetrics.BlockClosesAt | python_analyser_plugin/python_analyser.py:317-322 | inside a block, every line up to and including the first one containing the marker is a comment, and that line closes the block |
| LineMetrics.HeuristicDefs | python_analyser_plugin/python_analyser.py:338-341 | the fallback count is at most the number of lines |
| LineMetrics.DefLineShape | python_analyser_plugin/python_analyser.py:340 | a stripped line counts as a definition exactly when it has at least five characters, its first four are `def ` and its last is `:`, so the two tests never overlap |
| LineMetrics.MetricsOf | python_analyser_plugin/python_analyser.py:290-348 | `tloc` is the number of `'\n'` plus one; `loc + cloc <= tloc`; a parsed text's `nom` is its tree's definition count; after a syntax error `nom <= tloc`; any other parser exception yields no metrics |
| LineMetrics.CalculateMetrics | python_analyser_plugin/python_analyser.py:290-348 | the method computes `MetricsOf` |
| LineMetrics.ClassifyLines | python_analyser_plugin/python_analyser.py:295-327 | the loop's code and comment counters equal the code and comment lines of the scan |
| LineMetrics.CountDefLines | python_analyser_plugin/python_analyser.py:338-341 | the fallback loop counts the lines whose stripped text starts with `def ` and ends with `:` |
| LineMetrics.CountOfSnoc | python_analyser_plugin/python_analyser.py:312-327 | one more line adds one to the counter of its kind and nothing to the others |
| LineMetrics.ScanSnoc | python_analyser_plugin/python_analyser.py:304-327 | the scan of one more line is one classifier step from the state reached so far |
| NameOrder.NameLe | python_analyser_plugin/python_analyser.py:202 | the order `sorted` uses: first characters decide, and a prefix sorts before any string it begins |
| NameOrder.NameLeReflexive | python_analyser_plugin/python_analyser.py:202 | the code-point order of names is reflexive |
| NameOrder.NameLeTotal | python_analyser_plugin/python_analyser.py:202 | any two names are comparable |
| NameOrder.NameLeAntisymmetric | python_analyser_plugin/python_analyser.py:202 | names ordered both ways are equal |
| NameOrder.NameLeTransitive | python_analyser_plugin/python_analyser.py:202 | the order is transitive |
| Glob.GlobMatch | python_analyser_plugin/python_analyser.py:173-174 | `fnmatch`: a pattern without `*` matches only strings of its own length; a lone `*` matches every string |
| Glob.LiteralMatch | python_analyser_plugin/python_analyser.py:171-173 | a pattern without wildcards matches exactly itself |
| Glob.StarSuffixMatch | python_analyser_plugin/python_analyser.py:171-173 | `*` followed by a literal suffix matches exactly the strings ending with that suffix |
| FileSystem.JoinPath | python_analyser_plugin/python_analyser.py:203 | `os.path.join` returns an absolute name as it is; otherwise the directory, at most one `/`, then the name, with a `/` before the name whenever the directory is non-empty, and no `/` added exactly when the directory is empty or already ends in `/` |
| FileSystem.Basename | python_analyser_plugin/python_analyser.py:193 | `os.path.basename` is the suffix after the last `/`: it contains no `/`, ends the path, and is the whole path or is preceded by `/` |
| FileSystem.BasenameOfJoin | python_analyser_plugin/python_analyser.py:193-203 | the base name of a directory joined with an entry name is that name |
| FileSystem.SortByName | python_analyser_plugin/python_analyser.py:202 | `sorted` returns the listing in name order and as a permutation of it |
| FileSystem.InsertSorted | python_analyser_plugin/python_analyser.py:202 | inserting an entry into a name-sorted listing keeps it sorted |
| FileSystem.ConsSorted | python_analyser_plugin/python_analyser.py:202 | a head named at or below every name of a sorted listing keeps it sorted |
| FileSystem.SortedFrom | python_analyser_plugin/python_analyser.py:202 | every sorted entry is a listed entry |
| FileSystem.DistinctNamesPermutation | python_analyser_plugin/python_analyser.py:202 | a reordering of a listing with distinct names has distinct names |
| FileSystem.SortedUnique | python_analyser_plugin/python_analyser.py:202 | two name-sorted orderings of the same distinct-named entries are equal |
| FileSystem.SortIgnoresListingOrder | python_analyser_plugin/python_analyser.py:202 | sorting gives the same sequence whatever order `os.listdir` returns |
| Hierarchy.ShouldExcludeDirectory | python_analyser_plugin/python_analyser.py:152-161 | a directory is excluded exactly when its name is in the list |
| Hierarchy.ShouldExcludeFile | python_analyser_plugin/python_analyser.py:164-180 | a file is excluded exactly when some pattern matches its base name or its whole path |
| Hierarchy.PatternExcludes | python_analyser_plugin/python_analyser.py:173-175 | a pattern tests the base name and the whole path; a lone `*` excludes every file |
| Hierarchy.FirstMatch | python_analyser_plugin/python_analyser.py:170-180 | the early-return loop finds a match exactly when one exists |
| Hierarchy.FileNodeOf | python_analyser_plugin/python_analyser.py:249-288 | a file is always reported, as a `python` file node with the given name and no dependencies |
| Hierarchy.AnalyseFile | python_analyser_plugin/python_analyser.py:249-288 | when reading, time-stamping or measuring fails, all four metrics are zero and the time is the current one; otherwise the metrics are `MetricsOf` the text and the time is the modification time |
| Hierarchy.BuildNode | python_analyser_plugin/python_analyser.py:183-246 | a path holding a file gives a file node and anything else a folder node, always named by the path's base name, so the root is always returned |
| Hierarchy.Collect | python_analyser_plugin/python_analyser.py:202-232 | the children loop adds at most one child per listed entry |
| Hierarchy.ChildOf | python_analyser_plugin/python_analyser.py:203-232 | each listed entry contributes at most one child |
| Hierarchy.BuildHierarchy | python_analyser_plugin/python_analyser.py:183-246 | the recursive method builds `BuildNode` |
| HierarchyProperties.BuildNodeClean | python_analyser_plugin/python_analyser.py:183-246 | at every depth: children sorted by name; none hidden; no folder excluded or empty; every file `.py` and matched by no pattern on its name or path |
| HierarchyProperties.CollectClean | python_analyser_plugin/python_analyser.py:200-232 | every gathered child passed the filters, and so did everything below it |
| HierarchyProperties.CollectNames | python_analyser_plugin/python_analyser.py:203-232 | every child carries the name of a listed entry |
| HierarchyProperties.ChildOfName | python_analyser_plugin/python_analyser.py:193-203 | a child is named after the entry it came from |
| HierarchyProperties.CollectSorted | python_analyser_plugin/python_analyser.py:202-232 | walking the sorted listing yields children in name order |
| HierarchyProperties.ChildOfClean | python_analyser_plugin/python_analyser.py:203-232 | an entry's child, if any, passed the filters and is clean below |
| HierarchyProperties.DirChildClean | python_analyser_plugin/python_analyser.py:210-220 | a directory contributes only a non-hidden, non-excluded folder with children, clean below |
| HierarchyProperties.FileChildClean | python_analyser_plugin/python_analyser.py:222-232 | a file contributes only a non-hidden `.py` file node that no pattern excludes |
| HierarchyProperties.NoPatternExcludes | python_analyser_plugin/python_analyser.py:164-180 | a file `__should_exclude_file` lets through is matched by no pattern, on its name or its path |
| HierarchyProperties.CollectKeeps | python_analyser_plugin/python_analyser.py:200-232 | whatever a walked entry contributes appears among the children |
| HierarchyProperties.InSorted | python_analyser_plugin/python_analyser.py:202 | sorting loses no entry |
| HierarchyProperties.QualifyingFileReported | python_analyser_plugin/python_analyser.py:222-232 | a listed, non-hidden `.py` file that no pattern excludes is among the children, as `__analyse_file` reports it |
| HierarchyProperties.QualifyingDirReported | python_analyser_plugin/python_analyser.py:210-220 | a listed, non-hidden, non-excluded directory whose own node has children is among the children |
| HierarchyProperties.CollectIgnoresBound | python_analyser_plugin/python_analyser.py:200-232 | the gathered children depend only on the entries walked |
| HierarchyProperties.ListingOrderIrrelevant | python_analyser_plugin/python_analyser.py:202 | the folder node does not depend on the order of the directory listing |
| Analyser.Lookup | python_analyser_plugin/python_analyser.py:76-107 | an id is found exactly when it is one of the four catalog ids, and then the catalog entry with that id comes back |
| Analyser.CatalogConsistent | python_analyser_plugin/python_analyser.py:76-107 | the catalog lists `loc`, `cloc`, `nom`, `tloc` in that order, each found under its own id |
| Analyser.StrippedItems | python_analyser_plugin/python_analyser.py:149 | every kept item is non-empty with no whitespace at either end |
| Analyser.StrippedItemsAvoid | python_analyser_plugin/python_analyser.py:149 | items free of the separator stay free of it |
| Analyser.ParseCsvParam | python_analyser_plugin/python_analyser.py:143-149 | empty or whitespace-only input gives no items; every item is non-empty, stripped and comma-free |
| Analyser.StrippedBlank | python_analyser_plugin/python_analyser.py:149 | blank pieces all disappear |
| Analyser.BlankPieces | python_analyser_plugin/python_analyser.py:147-149 | every piece of a whitespace-only parameter is dropped |
| Analyser.CsvGuardRedundant | python_analyser_plugin/python_analyser.py:147-149 | the early return for blank input agrees with the comprehension |
| Analyser.StrippedClean | python_analyser_plugin/python_analyser.py:149 | clean items are kept one for one, in order |
| Analyser.CsvRoundTrip | python_analyser_plugin/python_analyser.py:143-149 | parsing a comma-join of clean items returns those items in order |
| Analyser.CsvIdempotent | python_analyser_plugin/python_analyser.py:143-149 | re-joining and re-parsing a parsed parameter changes nothing |
| Analyser.KnownMetrics | python_analyser_plugin/python_analyser.py:111-115 | the selection holds only catalog entries for requested ids, is no longer than the request, and is empty exactly when no requested id is known |
| Analyser.KnownMetricsAppend | python_analyser_plugin/python_analyser.py:111-115 | the selection distributes over concatenation of requests, so request order is kept |
| Analyser.KnownMetricsSingle | python_analyser_plugin/python_analyser.py:111-115 | one id contributes its catalog entry, or nothing when unknown |
| Analyser.KnownMetricsOfCatalog | python_analyser_plugin/python_analyser.py:76-115 | requesting all four ids in catalog order gives the whole catalog |
| Analyser.SelectMetrics | python_analyser_plugin/python_analyser.py:109-124 | an empty request gives the whole catalog in order; otherwise the recognised ids in request order; an error exactly when no requested id is known; a success is never empty |
| Analyser.OrElse | python_analyser_plugin/python_analyser.py:130-131 | a given non-empty value is used; an absent or empty one falls back |
| Analyser.ExclusionsOf | python_analyser_plugin/python_analyser.py:56-65 | both exclusion lists hold only non-empty, stripped, comma-free items, and a blank parameter gives an empty list |
| Analyser.AnalysisOf | python_analyser_plugin/python_analyser.py:27-141 | a missing input path is the first error; otherwise the result is an error exactly when metric selection fails; a result has version `1.0`, the defaulted title and description, the selected metrics, and the hierarchy built from the parsed exclusions |
| Analyser.Analyse | python_analyser_plugin/python_analyser.py:27-141 | the method computes `AnalysisOf` |
| MetricExamples.TrailingNewlineCounts | python_analyser_plugin/python_analyser.py:295-348 | `"def f():\n    pass\n"` gives loc 2, cloc 0, nom 1, tloc 3 |
| MetricExamples.SyntaxErrorCounts | test/python_analyser_test.py:168-183 | the unparsable two-line file gives nom 0 and tloc 2 |
| MetricExamples.AsyncMethodsCount | test/python_analyser_test.py:30-80 | a function, a method and an async method in a class give nom 3 |
| MetricExamples.CodeLine | python_analyser_plugin/python_analyser.py:324-327 | outside a block, a non-blank line not opening with `#` or a quote is code |
| MetricExamples.HashLine | python_analyser_plugin/python_analyser.py:324-325 | outside a block, a line whose stripped text opens with `#` is a comment |
| AnalyserExamples.TwoIdsParse | test/python_analyser_test.py:118-125 | `"loc,nom"` parses to `["loc", "nom"]` |
| AnalyserExamples.TwoMetricsSelected | test/python_analyser_test.py:118-133 | requesting `loc,nom` selects exactly those two definitions |
| AnalyserExamples.UnknownMetricsRejected | test/python_analyser_test.py:135-141 | `metrics="invalid,nonexistent"` parses to two unknown ids, and selecting them is an error |
| AnalyserExamples.EmptyDirectory | test/python_analyser_test.py:111-116 | an empty directory gives the root folder with no children, all four metrics and the default title and description |
| AnalyserExamples.CustomTitle | test/python_analyser_test.py:198-210 | a given title and description are used as they are |

## Left out

- Filesystem access is not modelled as I/O. `os.listdir`, `os.path.isfile`, `os.path.isdir`, `os.path.exists`, `open` and `os.path.getmtime` are replaced by the `Entry` value describing the tree.
- Timestamps are opaque strings. The modification time and `datetime.now()` are carried in each file's `FileData`. ISO formatting is not modelled.
- `ast.parse` is an input (`ParseOutcome`): a tree, a `SyntaxError`, or any other exception. The tree keeps only the node kinds the counter distinguishes.
- File decoding with `errors="ignore"` is not modelled. A file's text is the already decoded string.
- Glob.GlobMatch: `[...]` character classes of `fnmatch` are not modelled. `[` is matched as itself. `*` and `?` are modelled.
- Hierarchy.BuildNode: only a failing `os.listdir` is modelled, and it gives no children. An exception raised midway through the loop would keep the children gathered so far. That case is not modelled, because nothing in the loop raises for an in-memory tree.
- A `RecursionError` on very deep trees is not modelled.
- Paths and patterns follow POSIX. `JoinPath` and `Basename` are `posixpath`: `/` is the only separator. `GlobMatch` is case-sensitive and leaves out `os.path.normcase`. On Windows, `os.path.join` inserts `\`, `basename` splits on both separators, and `fnmatch` ignores case; the model does not capture that.
- The unused `root_path` argument of `__build_hierarchy` is dropped.
- Analyser.AnalysisOf: the default title's `os.path.basename(os.path.abspath(input_dir))` is the parameter `baseName`, because it depends on the working directory.
- Analyser.Request: the keyword arguments are plain strings. Passing `None` explicitly is not modelled.
- The counts are naturals, not the `float`s the report stores.
- Logging, `get_cli_parser`, the `__main__` block and the `pydantic` schema classes are not modelled. The schema classes become Dafny datatypes.
