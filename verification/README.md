# prpfmt, modelled in Dafny

prpfmt is a source formatter for the Pyrope hardware language. It is built on a
tree-sitter parser. This project models the parts of prpfmt whose code is available
in full. The formatting engine itself (`print_tree` and the `print_*` printers) is
only declared, so it is not modelled.

The project models four pieces:

- **The verbatim printer** of `prpfmt/prpfmt.c`. `traverse_and_print` walks the syntax
  tree depth first. For every leaf it writes the source bytes between the previous leaf
  and this one, then the leaf's own text (`get_node_text`). It then moves a
  `last_printed_end` cursor to the leaf's end. The model is a class `Printer` with the
  output stream and the cursor as fields. Each method is proved against the
  specification function `EmitLeaves`. The main lemma: with the cursor starting at 0
  and the leaves in source order, the printer writes exactly a prefix of the source,
  ending at the last leaf.
- **The command line and the two drivers**. `prpfmt/main.c` and `prpfmt/prpfmt.c`
  decide on `argv` in the same way. The result is help, a usage error, or a run with an
  input path and an optional output path. The model is `Cli.ParseArgs`, proved equal
  to `Cli.Decide`, with lemmas for each rule. `Driver.FormatMain` models `main` of
  `prpfmt/main.c`. It rejects trees with ERROR or MISSING nodes, then hands the tree
  to the engine with `indent_level = 0` and `indent_size = 2`. `Driver.VerbatimMain`
  models `main` of `prpfmt/prpfmt.c`. It prints the tree verbatim.
- **The regression runner** `prpfmt/run_tests.py`. It covers `normalize` (strip `//`
  comments, then semicolons, then whitespace), the pass/fail decision of `run_test`,
  the choice and order of the `.prp` test files, and the pass/fail counts with the
  exit status.
- **The indentation stripper** `prpfmt/remove_indent.py`. Every line loses its leading
  whitespace, and lines that are only whitespace disappear.

The outside world is passed in as values. For the drivers, `Driver.Host` says:

- whether the output file opens;
- whether the grammar is compatible;
- what reading the input returns;
- which tree the parser builds.

For the runner, the inputs are the directory listing, the contents of each file and
each formatter run. Characters stand for the bytes of the C code. A C string ends at
its first NUL (module `CStrings`). So the parser is given the text before the first
NUL, as `strlen` in both drivers does, and the verbatim printer reads that same text.

The two drivers differ, and the model follows each file:

- `prpfmt/prpfmt.c` only reports an incompatible grammar and carries on. The parser
  then has no language, `ts_parser_parse_string` returns no tree, and
  `ts_tree_root_node` is called on NULL. The model ends such a run in the outcome
  `NullTreeDereference`.
- `prpfmt/prpfmt.c` never checks the tree for errors.
- `prpfmt/main.c` stops with status 1 in both cases.

## Model

| member | source | states |
|---|---|---|
| `CStrings.NulIndex` | prpfmt/prpfmt.c:72 | the index of the first NUL, or the length: everything before it is NUL-free and a NUL sits at it |
| `CStrings.CStr` | prpfmt/prpfmt.c:72 | what `strlen`/`%s` see is a NUL-free prefix that stops at a NUL; a NUL-free buffer is seen whole |
| `CStrings.NulPad` | prpfmt/prpfmt.c:144 | the NUL padding `strncpy` writes has the requested length and holds only NULs |
| `CStrings.StrNCopyProperties` | prpfmt/prpfmt.c:144-145 | `strncpy` into a buffer of the range's length copies the range up to its first NUL and fills the rest with NULs; the copy has length `end - start`, shows a C reader the same string as the range, and equals the range when it has no NUL |
| `SyntaxTree.Leaves` | prpfmt/prpfmt.c:153 | the leaves visited, depth first: there is at least one, and each is childless |
| `SyntaxTree.HasErrorIffFlaggedNode` | prpfmt/main.c:132 | `ts_node_has_error` holds exactly when some node reachable from the root is an ERROR or MISSING node |
| `SyntaxTree.ErrorHasFlaggedNode` | prpfmt/main.c:132 | a tree with an error has a path to an ERROR or MISSING node |
| `SyntaxTree.FlaggedNodeHasError` | prpfmt/main.c:132 | an ERROR or MISSING node anywhere in the tree makes the whole tree report an error |
| `SyntaxTree.LeavesOf` | prpfmt/prpfmt.c:169-178 | the leaves of siblings, in sibling order: there are some exactly when there are siblings |
| `SyntaxTree.LeavesOfAppend` | prpfmt/prpfmt.c:172-177 | visiting one more sibling appends that sibling's leaves |
| `SyntaxTree.EndsNondecreasing` | prpfmt/prpfmt.c:166 | with leaves in source order, the end offsets of later leaves are never smaller |
| `Verbatim.Gap` | prpfmt/prpfmt.c:155-158 | the gap is the source bytes from the cursor up to the leaf's start, and is empty exactly when the leaf starts at or before the cursor |
| `Verbatim.NodeTextIsRangePrefix` | prpfmt/prpfmt.c:161-165 | a leaf's printed text is NUL-free and is the start of its source range, cut at the first NUL in that range |
| `Verbatim.EmitLeaves` | prpfmt/prpfmt.c:150-181 | after visiting the leaves the cursor is the end of the last leaf visited, or unchanged when there is none |
| `Verbatim.EmitLeavesCons` | prpfmt/prpfmt.c:153-166 | visiting a first leaf writes its gap and its text, then the rest from that leaf's end |
| `Verbatim.EmitLeavesAppend` | prpfmt/prpfmt.c:169-178 | visiting two runs of leaves writes the first run's output, then the second's, starting from the first run's cursor |
| `Verbatim.InnerTree` | prpfmt/prpfmt.c:153-178 | a node with children writes nothing of its own; its output is that of all its children, one after the other |
| `Verbatim.LeafTree` | prpfmt/prpfmt.c:153-167 | a leaf's output is that of the leaf alone |
| `Verbatim.OrderedEmitIsSlice` | prpfmt/prpfmt.c:150-181 | with leaves in source order and no NUL, the cursor never moves back and the output is exactly the source from the starting cursor to the last leaf's end |
| `Verbatim.VerbatimOutputIsSourcePrefix` | prpfmt/prpfmt.c:78-79 | started at cursor 0 on a tree whose leaves are in order, the output is a prefix of the source that ends at the last leaf's end; bytes after the last leaf are not written |
| `Verbatim.CursorNeverDecreases` | prpfmt/prpfmt.c:166 | with leaves in source order, the cursor after `i` leaves is at most the cursor after `j >= i` leaves |
| `Verbatim.PrefixCursor` | prpfmt/prpfmt.c:166 | after the first `i` leaves the cursor is the end of leaf `i - 1`, or its starting value when `i = 0` |
| `Verbatim.PrefixEndsOrdered` | prpfmt/prpfmt.c:166 | with leaves in source order, the end of an earlier leaf is at most that of a later one, and the starting cursor at most both |
| `Verbatim.GetNodeText` | prpfmt/prpfmt.c:130-148 | the buffer is freshly allocated and holds `end - start` bytes copied by `strncpy` from the range, then a NUL; for a NUL-free range it holds exactly the range |
| `Verbatim.PrintedNodeText` | prpfmt/prpfmt.c:161-165 | `%s` on that buffer prints the C string in the leaf's range |
| `Verbatim.OneLeaf` | prpfmt/prpfmt.c:153-166 | a single leaf writes its gap, then its text |
| `Verbatim.EmitChildrenStep` | prpfmt/prpfmt.c:172-177 | the output of the first `k + 1` children is that of the first `k`, then child `k` from the cursor they leave |
| `Verbatim.Printer.constructor` | prpfmt/prpfmt.c:78 | printing starts on an empty stream with `last_printed_end = 0` |
| `Verbatim.Printer.PrintGap` | prpfmt/prpfmt.c:155-158 | the byte loop appends exactly the gap from the cursor to the leaf's start, and changes only the stream |
| `Verbatim.Printer.PrintLeaf` | prpfmt/prpfmt.c:153-167 | a leaf appends its gap and text, and sets the cursor to the leaf's end |
| `Verbatim.Printer.TraverseAndPrint` | prpfmt/prpfmt.c:150-181 | the stream grows by the tree's verbatim output and the cursor ends where the specification puts it; the cursor stays inside the source |
| `Verbatim.Printer.PrintChildren` | prpfmt/prpfmt.c:169-178 | the child loop appends the children's outputs in order, each starting at the cursor the previous child left, and leaves the cursor where the last child put it |
| `Cli.ScanOptions` | prpfmt/main.c:87-102 | the option loop never reports a missing input; when it accepts non-empty options, the output is their last argument |
| `Cli.Decide` | prpfmt/main.c:69-102 | a missing-input error exactly when there are fewer than two arguments; help exactly when `argv[1]` is `-h` or `--help`; a run always reads `argv[1]` |
| `Cli.ScanAcceptsExactlyPairs` | prpfmt/main.c:87-102 | the options are accepted exactly when they are `-o <path>` pairs, and the output is then the last path (or none) |
| `Cli.ScanRejectsFirstBadOption` | prpfmt/main.c:88-101 | the first bad option decides the error: a non-`-o` argument is invalid, a final `-o` lacks its path |
| `Cli.RunExactlyWhenWellFormed` | prpfmt/main.c:71-102 | a run happens exactly for two or more arguments, no help flag first, and paired options; input `argv[1]`, output the last argument or standard output |
| `Cli.OutputNamedDashO` | prpfmt/main.c:88-91 | `-o -o` sets the output path to `-o` |
| `Cli.LastOutputWins` | prpfmt/main.c:88-91 | a repeated `-o` overrides the earlier ones |
| `Cli.TrailingOutputFlagIsError` | prpfmt/main.c:92-96 | `-o` as the last argument is a usage error |
| `Cli.StrayArgumentIsError` | prpfmt/main.c:97-101 | any other argument after the input path is refused, naming it |
| `Cli.StrayAfterAccepted` | prpfmt/main.c:88-101 | one more argument after accepted options is refused with the error its kind calls for |
| `Cli.HelpWinsOverEverything` | prpfmt/main.c:78-81 | a help flag in first position gives help whatever follows |
| `Cli.HelpFlagOnlyFirst` | prpfmt/main.c:78-101 | `-h` or `--help` is help only as the first argument; after the input path it is a stray argument and an error naming it |
| `Cli.ParseArgs` | prpfmt/main.c:69-102 | the argument loop, which skips each `-o` value, decides exactly as `Decide` (the same loop is at prpfmt/prpfmt.c:16-49) |
| `Driver.SinkFor` | prpfmt/main.c:105-112 | output goes to standard output exactly when no `-o` was given, and otherwise to the file named by the last `-o` |
| `Driver.FormatMain` | prpfmt/main.c:69-153 | usage errors exit 1 with help, and help exits 0. An output file that does not open, an incompatible grammar and an unreadable input each exit 1 with exactly their own message and no output. `print_tree` is reached exactly when the output opens, the grammar is compatible, the input reads and the tree has no ERROR/MISSING node; it gets the whole input buffer, the chosen sink, indent 0 and indent size 2. A tree with errors exits 1 with its message and no output |
| `Driver.VerbatimMain` | prpfmt/prpfmt.c:16-91 | same command line and the same messages for a bad command line or an output file that does not open; an unreadable input exits 1. After an incompatible grammar the run ends in the NULL-tree dereference, with only the grammar message. Otherwise it exits 0 without messages, and the verbatim output of the parsed tree goes to the chosen sink; it is a prefix of the source when the leaves are in order |
| `Ordering.LexLeTotal` | prpfmt/run_tests.py:86 | any two file names are comparable |
| `Ordering.LexLeTransitive` | prpfmt/run_tests.py:86 | string order is transitive |
| `Ordering.LexLeAntisymmetric` | prpfmt/run_tests.py:86 | two names ordered both ways are equal |
| `Ordering.Insert` | prpfmt/run_tests.py:86 | inserting adds exactly one element |
| `Ordering.Sort` | prpfmt/run_tests.py:86 | sorting is a permutation |
| `Ordering.InsertKeepsSorted` | prpfmt/run_tests.py:86 | inserting into a sorted list keeps it sorted |
| `Ordering.SortSorts` | prpfmt/run_tests.py:86 | the sort's result is in ascending string order |
| `RunTests.DropToNewline` | prpfmt/run_tests.py:14 | `.*` removes a newline-free prefix, and what is left is empty or starts at the newline |
| `RunTests.StripComments` | prpfmt/run_tests.py:14 | removing comments never lengthens the text |
| `RunTests.StripCommentsIsSubsequence` | prpfmt/run_tests.py:14 | removing comments only deletes characters |
| `RunTests.RemoveSemicolons` | prpfmt/run_tests.py:16 | no `;` is left, and only characters of the input remain |
| `RunTests.RemoveSemicolonsCounts` | prpfmt/run_tests.py:16 | every character other than `;` is kept, as often as it occurs, and every `;` goes |
| `RunTests.RemoveSemicolonsIsSubsequence` | prpfmt/run_tests.py:16 | removing semicolons only deletes characters |
| `RunTests.RemoveWhitespace` | prpfmt/run_tests.py:18 | no whitespace is left, and only characters of the input remain |
| `RunTests.RemoveWhitespaceCounts` | prpfmt/run_tests.py:18 | every non-whitespace character is kept, as often as it occurs, and all whitespace goes |
| `RunTests.RemoveWhitespaceIsSubsequence` | prpfmt/run_tests.py:18 | removing whitespace only deletes characters |
| `RunTests.Normalize` | prpfmt/run_tests.py:12-19 | the normal form holds no `;` and no whitespace, is a subsequence of the input and no longer than it |
| `RunTests.NormalizeCounts` | prpfmt/run_tests.py:12-19 | the normal form keeps every character of the comment-free text other than `;` and whitespace, as often as it occurs there |
| `RunTests.StripCommentsPlainHead` | prpfmt/run_tests.py:14 | a character other than `/` is kept |
| `RunTests.StripCommentsAtComment` | prpfmt/run_tests.py:14 | at `//` the rest of the line is dropped |
| `RunTests.StripCommentsKeepsPlainPrefix` | prpfmt/run_tests.py:14 | code with no `//` in it is kept unchanged, a division `a / b` included, unless its last `/` and the text after it form a `//` |
| `RunTests.DropStopsAtNewline` | prpfmt/run_tests.py:14 | a comment body stops at the first newline, which is kept |
| `RunTests.CommentRunsToEndOfLine` | prpfmt/run_tests.py:14 | after code with no `//`, from `//` to the end of that line is removed; the newline and later lines are kept |
| `RunTests.CommentLine` | prpfmt/run_tests.py:14 | a line that starts with `//` leaves only its newline |
| `RunTests.DivisionBeforeComment` | prpfmt/run_tests.py:14 | in `x = a / b // ...` the division stays and only the comment goes |
| `RunTests.CommentRunsToEndOfText` | prpfmt/run_tests.py:14 | after code with no `//`, a comment on the last line without a newline runs to the end of the text |
| `RunTests.NormalizeKeepsPlainText` | prpfmt/run_tests.py:12-19 | a text with no `//`, `;` or whitespace is its own normal form |
| `RunTests.LayoutCharErased` | prpfmt/run_tests.py:16-18 | once comments are gone, a space, newline or `;` anywhere makes no difference |
| `RunTests.SemicolonsAround` | prpfmt/run_tests.py:16 | removing semicolons works piece by piece: a character in the middle is kept unless it is `;` |
| `RunTests.WhitespaceAround` | prpfmt/run_tests.py:18 | a whitespace character in the middle vanishes |
| `RunTests.NormalizeIgnoresLayout` | prpfmt/run_tests.py:12-19 | inserting a space, newline or `;` after code with no `//` leaves the normal form unchanged |
| `RunTests.NormalizeIgnoresLayoutRun` | prpfmt/run_tests.py:12-19 | inserting any run of spaces, newlines and `;` after code with no `//` leaves the normal form unchanged |
| `RunTests.RunTest` | prpfmt/run_tests.py:21-70 | the test passes exactly when the file reads, the formatter exits 0 and the normal forms agree; a missing formatter aborts the run |
| `RunTests.LayoutChangePasses` | prpfmt/run_tests.py:50-56 | a formatter whose only change is a run of layout or `;` inserted after code with no `//` passes |
| `RunTests.DroppedCommentPasses` | prpfmt/run_tests.py:50-56 | a formatter that drops a trailing comment after code with no `//` still passes |
| `RunTests.PrpPaths` | prpfmt/run_tests.py:81-85 | the comprehension keeps at most one path per listing entry |
| `RunTests.PrpNames` | prpfmt/run_tests.py:84 | `endswith(".prp")` accepts exactly a stem followed by `.prp`, the empty stem included |
| `RunTests.JoinEndsWithName` | prpfmt/run_tests.py:82 | `os.path.join` puts the name last; a relative name keeps the directory in front, with one `/` between them unless the directory already ends in one |
| `RunTests.PrpPathsMembers` | prpfmt/run_tests.py:81-85 | a path is selected exactly when it joins the test directory with a listed name ending in `.prp` |
| `RunTests.TestFiles` | prpfmt/run_tests.py:81-86 | the files tested are in ascending order and are a permutation of the selected paths |
| `RunTests.TestFilesAreSortedPrpFiles` | prpfmt/run_tests.py:81-86 | a path is tested exactly when it joins the test directory with a listed name ending in `.prp` |
| `RunTests.CountOf` | prpfmt/run_tests.py:88-95 | a count never exceeds the number of verdicts |
| `RunTests.CountStep` | prpfmt/run_tests.py:91-95 | one more verdict raises exactly its own count by one |
| `RunTests.CountsAddUp` | prpfmt/run_tests.py:88-95 | without an abort, passed + failed is the number of tests |
| `RunTests.RunSuite` | prpfmt/run_tests.py:72-101 | a missing executable or directory stops first. Otherwise the run ends in a summary or an abort, and it aborts exactly when some test aborts, at the first one. Without an abort, the counts are the passes and failures, they add up to the number of test files, and the exit status is 1 exactly when something failed |
| `RemoveIndent.LStrip` | prpfmt/remove_indent.py:8 | the result is the suffix from the first non-whitespace character; what is dropped is all whitespace; it is empty exactly for an all-whitespace line |
| `RemoveIndent.LineLength` | prpfmt/remove_indent.py:7 | a line runs up to and including its first newline, or to the end of the text |
| `RemoveIndent.FirstLine` | prpfmt/remove_indent.py:7 | the first line read is a proper line, and ends with its newline when more text follows |
| `RemoveIndent.SplitLinesInverse` | prpfmt/remove_indent.py:7 | `for line in f_in` (`SplitLines`) yields proper lines that join back into the file's text |
| `RemoveIndent.ProperCons` | prpfmt/remove_indent.py:7 | a proper line, newline-terminated when more follow, in front of proper lines gives proper lines, joined in that order |
| `RemoveIndent.ConcatSplitLines` | prpfmt/remove_indent.py:7 | proper lines joined and read again are the same lines |
| `RemoveIndent.Kept` | prpfmt/remove_indent.py:7-8 | the surviving lines are non-empty and start with non-whitespace |
| `RemoveIndent.StripLinesIsConcatOfKept` | prpfmt/remove_indent.py:7-8 | the output is the surviving stripped lines joined in input order |
| `RemoveIndent.ConcatAppend` | prpfmt/remove_indent.py:8 | writing two runs of lines writes the first run, then the second |
| `RemoveIndent.StripLinesNoLonger` | prpfmt/remove_indent.py:7-8 | the loop (`StripLines`) never writes more than the lines hold |
| `RemoveIndent.RemoveIndentShape` | prpfmt/remove_indent.py:4-14 | the output (`RemoveIndent`) is no longer than the input and never starts with whitespace |
| `RemoveIndent.StrippedLine` | prpfmt/remove_indent.py:8 | stripping keeps a line's text from its first non-whitespace character on, newline included |
| `RemoveIndent.KeptProper` | prpfmt/remove_indent.py:7-8 | the surviving lines are proper lines again |
| `RemoveIndent.KeptOfStripped` | prpfmt/remove_indent.py:8 | already-stripped lines survive unchanged |
| `RemoveIndent.OutputLines` | prpfmt/remove_indent.py:7-8 | read back, the output's lines are the surviving stripped lines, in order; blank lines are gone |
| `RemoveIndent.RemoveIndentIdempotent` | prpfmt/remove_indent.py:7-8 | running the tool on its own output changes nothing |
| `RemoveIndent.RemoveLeadingWhitespace` | prpfmt/remove_indent.py:4-14 | the loop writes exactly each line stripped, in order |
| `RemoveIndent.StripLinesStep` | prpfmt/remove_indent.py:7-8 | one more loop step appends that line stripped, ahead of the rest |

## Left out

- The formatting engine. `print_tree`, the `print_*` printers and
  `format_node_recursive` (prpfmt/prpfmt.h:256-385) have no bodies in the available
  files. `Driver.FormatMain` ends where `print_tree` is called. Comment placement,
  `prpfmt off`/`on` directives and indentation are therefore not modelled.
- The grammar's node kinds (prpfmt/prpfmt.h:15-254). A node carries only its byte
  range, its children and whether it is an ERROR or MISSING node.
- Tree-sitter. Parsing, cursors and node queries are replaced by the `SyntaxTree.Node`
  datatype and `Driver.Host.parse`. A tree's ranges are assumed to lie inside the
  parsed text (`ParserKeepsRanges`), which the parser guarantees.
- What happens after `ts_tree_root_node(NULL)` in `prpfmt/prpfmt.c`. Tree-sitter's
  parser returns no tree when it has no language, and the NULL dereference that
  follows is undefined behaviour in C. `Driver.VerbatimMain` ends the run there, in
  the outcome `NullTreeDereference`, with no exit status and no output.
- `file_to_string`, `fopen`, `fclose` and `cleanup`. These are file I/O and resource
  release, and they appear as `Host` answers. The output file is truncated on opening
  even when the run fails later; the model does not record this.
- Allocation failures. `get_node_text` returning NULL, and `malloc` failing in
  `file_to_string`, are not modelled.
- Messages. The text of `print_help`, `perror` and the error messages becomes a
  `Driver.Diagnostic` tag.
- Integer widths. The model uses unbounded integers for `uint32_t` offsets and for
  `last_printed_end`. `end - start` in `get_node_text` would wrap if `end < start`;
  tree-sitter never builds such a node.
- prpfmt/prpfmt_new.c, a driver that only prints the parse tree as text.
- In run_tests.py: `subprocess.run`, the `difflib` report, the progress prints,
  `os.listdir` and `os.path.exists`. These are inputs to `RunTests.RunSuite`.
  Decoding the formatter's output as text, and exceptions it might raise, are not
  modelled.
- In remove_indent.py: opening and closing files, the exception branches, the default
  output name `test.prp` and the argument check under `__main__`.
- Whitespace is the ASCII set: space, tab, newline, carriage return, vertical tab and
  form feed. Python's `\s` and `str.lstrip()` also treat other Unicode whitespace (for
  example U+001C to U+001F, U+0085 and U+00A0) as whitespace.
- Python's text mode turns `\r\n` and `\r` into `\n` when reading. The model reads
  lines split at `\n` only.
- `Ordering.Sort` is insertion sort. Python's `list.sort()` is Timsort. Both give the
  unique ascending arrangement, so only the result is modelled.
