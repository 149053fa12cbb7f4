# EditorBrowsable audit of the .NET Standard reference sources

ConsoleApp6 is a one-shot maintenance tool. It compiles the .NET Standard
reference sources. It stops if the compilation has diagnostics outside a
fixed allow-list. Otherwise it collects every symbol whose
documentation-comment id is in a manifest of APIs missing from .NET Framework
4.6.1, and reports the manifest entries it could not find. Then it finds the
`[EditorBrowsable]` attribute lists on the collected symbols and reports which
symbols had one ("Found") and which did not ("Missing"). Finally it deletes
the source line of every such attribute list and writes each affected file
back.

The model has one module per stage of that run:

- `Entities` (entities.dfy): the values the compiler hands over. These are
  symbols as a tree of namespaces/types and members, attribute applications,
  and locations.
- `Gate` (gate.dfy): the diagnostics loop and its allow-list, CS3021, CS0809
  and CS0618.
- `Resolver` (resolver.dfy): the recursive walk `GetSymbols`. The receiver
  list is a class, `SymbolList`, with a sequence field that the walk appends
  to. The module also holds the report of manifest entries that were not found.
- `Classifier` (classifier.dfy): the nested loops that record attribute-list
  locations and mark symbols as processed. It also holds the Found/Missing
  split.
- `TextLines` (text_lines.dfy): lines of a text. This covers the line that
  holds a position, the removal of that line with its line break, and `Keep`.
  `Keep` is a reference definition of "the text with exactly these lines
  deleted".
- `Rewriter` (rewriter.dfy):
  - grouping the locations by file;
  - ordering each group by descending start offset;
  - the removal loop that reassigns the text after each removal;
  - the sequence of written files.
- `Pipeline` (pipeline.dfy): the whole run, from the gate to the writes.

The main theorem is `Rewriter.RemovalsDeleteLines`. Take the offsets of one
file in descending order, with no two of them on the same line of the original
text. Removing the line of each offset in turn deletes exactly those original
lines. Every other character stays in place and in order. `RewriteFile` and
`RewriteAll` (the real loops) inherit this for any input order, by way of the
sort's permutation property. Without the distinct-lines hypothesis the
guarantee does not hold. Suppose two locations fall on the same line. Once
that line is gone, the smaller offset points at whatever text has moved to
that position. One of three things then happens. Some later line, not
necessarily the next one, is deleted as well. Or the line lookup throws,
because the offset is now past the end of the text. Or the offset lands
exactly at the end of the shortened text and that text is empty or ends
with a line break: the lookup then returns the empty last line and nothing more is
removed. A realistic cause is one attribute list shared by several
declarators, as in `[EditorBrowsable(...)] public int a, b;`. Both field
symbols then carry the same attribute-list location
(ConsoleApp6/Program.cs:59-62), so the same offset is removed twice. The
model states the guarantee under the hypothesis and does not claim more.

Inputs that the program obtains from elsewhere are parameters of `Pipeline.Run`:

- the diagnostic ids;
- the global namespace as a `Symbol` tree;
- the manifest as a set of strings;
- the text of each file, as a total function from file name to text.

## Model

| member | source | states |
|---|---|---|
| Gate.CheckDiagnostics | ConsoleApp6/Program.cs:25-37 | there are issues exactly when some diagnostic id is off the allow-list; the reported ids are exactly the offending ones, in order, and the list is non-empty exactly when there are issues |
| Gate.Offending | ConsoleApp6/Program.cs:27-34 | the report is no longer than the diagnostics and holds only ids that occur there and are off the allow-list |
| Gate.OffendingComplete | ConsoleApp6/Program.cs:27-34 | every diagnostic off the allow-list appears in the report |
| Resolver.SymbolList.Add | ConsoleApp6/Program.cs:94 | the receiver list grows by exactly the added symbol at its end |
| Resolver.SymbolList.constructor | ConsoleApp6/Program.cs:39 | a new receiver list is empty |
| Resolver.GetSymbols | ConsoleApp6/Program.cs:88-99 | the walk keeps what the receiver held and appends, in depth-first member order, exactly Collect of the container's members |
| Resolver.Collect | ConsoleApp6/Program.cs:88-99 | reference definition of what the walk appends for a list of members: each member if its id is in the manifest, then its contents if it is a namespace or type |
| Resolver.CollectStep | ConsoleApp6/Program.cs:90-97 | one more member contributes itself when its id is in the manifest, then its own contents when it is a namespace or type |
| Resolver.CollectedIffReachable | ConsoleApp6/Program.cs:88-99 | a symbol is collected exactly when it is reachable from the container through namespaces and types and its doc id is present and in the manifest |
| Resolver.ReachableLast | ConsoleApp6/Program.cs:90-97 | reachability through a member list splits into the earlier members and the last one |
| Resolver.FoundIds | ConsoleApp6/Program.cs:42 | an id is found exactly when some collected symbol carries it |
| Resolver.ReportUnmatched | ConsoleApp6/Program.cs:42-48 | an entry is reported exactly when it is in the manifest and no collected symbol carries it |
| Resolver.NotFoundIffUnreachable | ConsoleApp6/Program.cs:40-48 | on the walk's own result, an entry is reported exactly when no symbol reachable through namespaces and types carries it |
| Classifier.MarkerSites | ConsoleApp6/Program.cs:55-63 | one symbol yields at most one location per attribute |
| Classifier.AllMarkerSites | ConsoleApp6/Program.cs:53-66 | reference definition of the locations the nested loops record: the marker sites of each symbol, symbol by symbol |
| Classifier.MarkedIndices | ConsoleApp6/Program.cs:53-66 | reference definition of the processed set: the positions of the symbols that carry the marker; every such position is within the list |
| Classifier.MarkerSitesStep | ConsoleApp6/Program.cs:55-63 | one more attribute appends its list location exactly when it is a marker |
| Classifier.MarkedIndicesMembers | ConsoleApp6/Program.cs:53-66 | a position is processed exactly when the symbol there carries the marker attribute |
| Classifier.ScanAttributes | ConsoleApp6/Program.cs:55-65 | the inner loop appends the list locations of the symbol's marker applications in attribute order, and marks the symbol exactly when it has one |
| Classifier.Classify | ConsoleApp6/Program.cs:50-66 | the locations are the list locations of all marker applications, symbol by symbol; a position is processed exactly when its symbol carries the marker |
| Classifier.SitesOfOne | ConsoleApp6/Program.cs:55-63 | a location is recorded for a symbol exactly when one of its marker attributes sits in that attribute list |
| Classifier.SitesAreMarkers | ConsoleApp6/Program.cs:53-66 | a location is recorded exactly when it is the list location of a marker application on some collected symbol |
| Classifier.Missing | ConsoleApp6/Program.cs:68-71 | the Missing list is no longer than the collected symbols |
| Classifier.MissingMembers | ConsoleApp6/Program.cs:70-71 | a symbol is listed as Missing exactly when it sits at an unprocessed position |
| Classifier.MissingCount | ConsoleApp6/Program.cs:68 | Missing and the processed positions below the length together count every symbol once |
| Classifier.Partition | ConsoleApp6/Program.cs:68-71 | every collected symbol is Found or Missing and never both; the Found and Missing counts add up to the number of collected symbols |
| Classifier.FoundAtMostLocations | ConsoleApp6/Program.cs:53-68 | the Found count never exceeds the number of recorded locations |
| TextLines.LineStart | ConsoleApp6/Program.cs:80 | the line start is at or before the position, just after a line break or at 0, with no line break in between |
| TextLines.LineEnd | ConsoleApp6/Program.cs:80-81 | the line end is just after the first line break at or after the position, or the end of the text |
| TextLines.RemoveLine | ConsoleApp6/Program.cs:81 | the edit shortens the text by exactly the length of the line, break included |
| TextLines.LineExtent | ConsoleApp6/Program.cs:80-81 | the positions on the line of p are exactly those from its start up to its end |
| TextLines.LineOfMonotone | ConsoleApp6/Program.cs:78-80 | line numbers never decrease along the text |
| TextLines.RemoveLineStep | ConsoleApp6/Program.cs:80-81 | removing the line of p leaves the text before that line unchanged; deleting lines above it from the result is deleting them plus p's line from the original |
| TextLines.RemoveLineDeletesItsLine | ConsoleApp6/Program.cs:80-81 | the edit is exactly the deletion of the line holding p, and nothing else |
| TextLines.KeepNothing | ConsoleApp6/Program.cs:76-84 | deleting no line of a text leaves it unchanged |
| Rewriter.Insert | ConsoleApp6/Program.cs:78 | inserting into a descending list keeps it descending and adds exactly one occurrence of the value |
| Rewriter.SortDescending | ConsoleApp6/Program.cs:78 | the processing order is descending by start offset and a permutation of the group |
| Rewriter.Files | ConsoleApp6/Program.cs:73 | each file appears as one group, with no repeats |
| Rewriter.FilesSound | ConsoleApp6/Program.cs:73 | every group is the file of some location |
| Rewriter.FilesComplete | ConsoleApp6/Program.cs:73 | every location's file has a group |
| Rewriter.GroupStarts | ConsoleApp6/Program.cs:73-78 | a group holds no more offsets than there are locations |
| Rewriter.GroupStartsMembers | ConsoleApp6/Program.cs:73-78 | an offset is in a file's group exactly when some location in that file starts there |
| Rewriter.ApplyRemovals | ConsoleApp6/Program.cs:78-82 | reference definition of the removal loop over offsets in processing order; a successful result is never longer than the text, and a failure names one of the offsets, the one whose line lookup would throw |
| Rewriter.RemovalsDeleteLines | ConsoleApp6/Program.cs:78-82 | descending removal of offsets on distinct lines deletes exactly those original lines |
| Rewriter.NoRepeats | ConsoleApp6/Program.cs:78-80 | offsets on distinct lines occur at most once each |
| Rewriter.DistinctLinesPermutation | ConsoleApp6/Program.cs:78 | reordering the group keeps its offsets within the text and on distinct lines |
| Rewriter.LinesOfPermutation | ConsoleApp6/Program.cs:78 | reordering the group does not change the set of lines it names |
| Rewriter.ProveRewriteFile | ConsoleApp6/Program.cs:76-82 | for any input order on distinct lines the outcome is the text with exactly those lines deleted; an empty group leaves the text unchanged |
| Rewriter.RewriteFile | ConsoleApp6/Program.cs:75-82 | the loop's result is the descending removal of the group's offsets; on distinct lines it is the original text with exactly those lines deleted; a position past the current end is an error |
| Rewriter.Rewrite | ConsoleApp6/Program.cs:75-82 | reference definition of the per-file rewrite: the file's group, ordered descending, removed from its original text; a success is never longer than the original, and a failure names an offset of that file's group |
| Rewriter.RewriteAll | ConsoleApp6/Program.cs:73-85 | files are written in order of first appearance, each with its rewritten text; the run stops at the first group whose line lookup fails, naming that file and position |
| Rewriter.WrittenInOrderAppend | ConsoleApp6/Program.cs:84 | writing the next group's text extends the written prefix by one file |
| Rewriter.WritesHaveLocations | ConsoleApp6/Program.cs:73-85 | a written file always has a location, and no file is written twice |
| Rewriter.WritesCoverLocations | ConsoleApp6/Program.cs:73-85 | when no group fails, every location's file is written |
| Rewriter.GroupsDeleteLines | ConsoleApp6/Program.cs:73-84 | when every group is on distinct lines, every file's rewrite succeeds and deletes exactly its locations' lines |
| Rewriter.WrittenFiles | ConsoleApp6/Program.cs:73-85 | each written file has a location and is written once; without failure every location's file is written; on distinct lines nothing fails and each written text is the original with exactly its locations' lines deleted |
| Pipeline.Run | ConsoleApp6/Program.cs:15-86 | the run halts exactly when a diagnostic is off the allow-list, reporting those; otherwise it reports the unfound entries, the Found count and the Missing list; the files are written in first-appearance order, each with its rewritten text, and the run stops at the first failing group, naming that file and position; the facts of WrittenFiles hold of the writes |

## Left out

- Parsing and compiling the sources with Roslyn are not modelled. The
  compilation is represented by its diagnostic ids and its symbol tree.
- Symbol lookups are foreign calls and become fields of the `Symbol` and
  `Attribute` values. These are `GetMembers`, `GetDocumentationCommentId`,
  `GetAttributes`, `AttributeClass.MetadataName`, the enclosing
  `AttributeListSyntax` and `GetLocation`.
- The `Debug.Assert` that every marker sits in an attribute list is not
  modelled: every attribute carries its list location.
- A location is reduced to its file and start offset, the only parts the
  rewriter uses.
- Line breaks are `'\n'` only. Roslyn also splits lines at a lone `'\r'`, at
  U+0085 (next line) and at U+2028 and U+2029 (line and paragraph separators).
  Text with `"\r\n"` line breaks gets the same result under this model,
  because the `'\r'` stays on the line that the `'\n'` ends.
- Console output is not modelled as text. The reports are values: the
  offending ids, the set of unfound entries, the Found count and the Missing
  symbols. Display strings are carried but not formatted.
- Writing files is not modelled as I/O: each write is a `Write(file, text)` in
  the result. The directory enumeration, file reading and paths are inputs.
- Texts are compared as characters, not as encoded bytes. Reading a file
  drops a byte order mark it finds, and writing produces UTF-8 without one.
  So a rewritten file can differ from its original in bytes outside the
  deleted lines, for example in a byte order mark or in the encoding.
- The contents of the manifest of missing APIs (`NetFramework461.MissingApis`)
  are not part of this model. The manifest is a parameter.
- Symbols are identified by their position in the collected list, not by
  object identity. The walk visits each node of the tree once.
- Resolver.ReportUnmatched: reports a set, not lines printed in the manifest's
  enumeration order, because the model does not fix that order.
- Rewriter.RewriteAll: the only failure it models is a line lookup past the
  end of the current text, which the source signals with an exception. I/O
  errors while writing are not modelled.
- Rewriter.RemovalsDeleteLines: states the deletion guarantee only when no two
  locations of a file are on the same line. Otherwise the source deletes some
  later line as well, or its line lookup throws. Or, when the smaller offset
  lands exactly at the end of the shortened text and that text is empty or
  ends with a line break, the lookup returns the empty last line and nothing more is
  removed. For that case the model
  states only the plain removal sequence, ApplyRemovals.
