# Include dependency graph, modelled in Dafny

This project models the core of `include_dependency_graph`, a single-file
Qt program (`main.cpp`). The program:

- walks source trees;
- turns every source file into a graph node, named by its path at a chosen
  granularity (class, module or top-level module);
- reads each `#include` line and resolves the included text to a node: the
  standard library `c++`, a configured library, a sibling header, or another
  source node;
- records an edge for each resolved include;
- emits the graph, with libraries styled gray and every node filled with the
  saturating blend of the colours of the "seed" nodes it transitively depends
  on.

The model takes the configuration as one immutable `Config` value. The tests
that need the outside world are parameters:

- whether `FileIgnorePattern` matches a path (`ignorePath: string -> bool`);
- whether a file exists (`fileExists: string -> bool`).

Modules, in dependency order:

- `Wrappers` — `Option`.
- `Strings` — the `QString`/`QByteArray` operations the program relies on:
  - `trimmed`;
  - `indexOf` and `lastIndexOf`;
  - `endsWith` and `startsWith`;
  - `replace(pat, "")`.
- `Graphs`:
  - nodes, graphs and walk-based reachability;
  - `allNodes`;
  - `dependsOn`, a worklist search proved to decide reachability.
- `NodeNaming` — the granularity setting, `QFileInfo::suffix` and `nodeFromSourceFile`.
- `Colors` — the `blend` lambda on RGB channels.
- `Settings`:
  - the `Config` value;
  - the ignore test built from `FileIgnorePattern`;
  - the two library tables built from their parsed groups.
- `IncludeLine` — the search for `# *include *["<](.*)[">]` in a line.
- `IncludeResolution` — `nodeFromInclude`.
- `GraphBuilder`:
  - the per-line step;
  - the loop over one file's lines;
  - the loops over input directories and files;
  - the graph invariant the scan keeps.
- `Coloring` — the colour of a node from the seeds, and the per-node loop.
- `Output` — the three output passes: gray libraries, coloured nodes and
  edges. Each is modelled as a set rather than text.
- `Scenarios` — worked examples, including a two-file end-to-end run.

Three behaviours of the code are easy to misread; the model follows the
code in each:

- `replace("." + suffix, "")` removes every occurrence of `.suffix`, not
  only the trailing one.
- The sibling-header test `srcNode.endsWith(includeNode)` compares text, not
  path segments.
- The edge filter checks only the destination.

## Model

| member | source | states |
|---|---|---|
| Strings.Trim | main.cpp:174 | the result has no leading or trailing ASCII white space and is `s` with a run of white space removed at each end |
| Strings.TrimUntrimmed | main.cpp:174 | trimming a line that neither starts nor ends with white space leaves it unchanged |
| Strings.EndsWith | main.cpp:57 | `endsWith(t)`: `t` is no longer than `s` and is its final part (every string ends with the empty string) |
| Strings.StartsWith | main.cpp:165 | `startsWith(t)`: `t` is no longer than `s` and is its first part |
| Strings.IndexOf | main.cpp:43 | -1 exactly when the character is absent, otherwise the index of its first occurrence |
| Strings.LastIndexOf | main.cpp:24 | -1 exactly when the character is absent, otherwise the index of its last occurrence |
| Strings.LastIndexOfAny | main.cpp:39-40 | -1 exactly when no character of the set occurs, otherwise the last index holding one (`lastIndexOf` of the dot-or-slash pattern) |
| Strings.RemoveAll | main.cpp:20 | `replace(pat, "")`: the result is never longer than the input; which occurrences go is fixed by `RemoveAllAbsent` and `RemoveAllAt` |
| Strings.RemoveAllAbsent | main.cpp:20 | removing a pattern that does not occur changes nothing |
| Strings.RemoveAllAt | main.cpp:20 | when `pat` first occurs right after a prefix `x`, that occurrence is deleted, `x` is kept and the deletion goes on in the rest; with `RemoveAllAbsent` this fixes the left-to-right deletion of every non-overlapping occurrence |
| Strings.RemoveAllTrailing | main.cpp:20 | removing a pattern that occurs only at the end strips exactly that ending |
| Graphs.Succ | main.cpp:106 | `graph.value(n)`: the successors of `n`, empty when `n` is no key |
| Graphs.NodesOf | main.cpp:92-98 | a node is in the set exactly when it is a key or a destination of some key |
| Graphs.AllNodes | main.cpp:92-98 | the loop over the map returns exactly the keys and all their destinations |
| Graphs.ToList | main.cpp:106 | the list holds exactly the members of the set |
| Graphs.EdgeReaches | main.cpp:106 | a direct successor is reachable |
| Graphs.ReachesStep | main.cpp:115 | a successor of a reachable node is reachable |
| Graphs.ReachedIsNode | main.cpp:92-98 | every reachable node is a node of the graph |
| Graphs.WalkStaysIn | main.cpp:105-116 | a walk that enters a set closed under successors stays in it |
| Graphs.ClosedSetBoundsReach | main.cpp:105-117 | every node reachable from a start whose successors lie in a successor-closed set lies in that set (why an exhausted worklist means "no") |
| Graphs.CoveredAfterSkip | main.cpp:112-113 | skipping an already visited node keeps every successor of the visited nodes visited or pending |
| Graphs.CoveredAfterExpand | main.cpp:114-115 | visiting a node and queueing its successors keeps that coverage |
| Graphs.FewerUnvisited | main.cpp:114 | marking a new node visited shrinks the unvisited part of the graph (why the loop ends on cyclic graphs) |
| Graphs.DependsOn | main.cpp:100-118 | true exactly when depender equals dependee or reaches it by one or more edges; a depender with no key has no edges; terminates on any graph |
| NodeNaming.Level | main.cpp:11 | the enumerator values CLASSES 0, MODULES 1, TOPLEVELMODULES 2, all within 0..2 (`SettingRoundTrip` shows no two levels share a number) |
| NodeNaming.GranularityFromSetting | main.cpp:128 | the integer setting is clamped to CLASSES..TOPLEVELMODULES |
| NodeNaming.SettingRoundTrip | main.cpp:11 | each granularity read back from its own number is itself |
| NodeNaming.FileName | main.cpp:18 | the text after the last `/`, holding no `/` |
| NodeNaming.Suffix | main.cpp:18-20 | `QFileInfo::suffix`: the text after the last `.` of the file name, empty when the file name has no `.` |
| NodeNaming.StripExtension | main.cpp:19-20 | the path with every `.suffix` removed is no longer than the path; which text goes is fixed by `StripDotted`, `StripSingleExtension` and `StripRepeatedExtension` |
| NodeNaming.ModuleOf | main.cpp:24-26 | the text before the last `/`, or the whole text when there is none |
| NodeNaming.NodeFromSourceFile | main.cpp:13-33 | an ignored path gives the empty node; otherwise the extension is stripped and, at the module granularities, the result is cut before its last `/` |
| NodeNaming.ModuleLevelsAgree | main.cpp:28-32 | MODULES and TOPLEVELMODULES name every path alike |
| NodeNaming.LastIndexOfJoin | main.cpp:24 | the last `c` in `s + c + t`, where `t` lacks `c`, is at the length of `s` |
| NodeNaming.ModuleOfPath | main.cpp:24-26 | the module of `dir/name` is `dir` |
| NodeNaming.SuffixOfDotted | main.cpp:18 | `stem.ext` has suffix `ext` |
| NodeNaming.NotInside | main.cpp:20 | a pattern whose first character does not occur in `stem` occurs at no position inside `stem`, whatever follows it |
| NodeNaming.StripDotted | main.cpp:18-20 | for `stem.ext`, with no `.` or `/` in `ext`, the node text is the whole path with every `.ext` deleted |
| NodeNaming.StripSingleExtension | main.cpp:20 | a path whose only `.` opens its extension loses exactly the extension |
| NodeNaming.RemoveOnce | main.cpp:20 | a lone trailing occurrence of the pattern goes when its first character is not in the text before it |
| NodeNaming.StripRepeatedExtension | main.cpp:20 | `a.ext/b.ext` loses both occurrences of `.ext`, not only the trailing one, and becomes `a/b` |
| NodeNaming.RemoveTwice | main.cpp:20 | both occurrences go from `a`, pattern, `tail`, pattern when neither `a` nor `tail` holds the pattern's first character |
| Colors.SaturatingAdd | main.cpp:223 | `qMin(255, a + b)`: the sum when it fits, 255 otherwise |
| Colors.Blend | main.cpp:220-224 | into no colour yet, the blend is the seed colour; otherwise each channel is the saturated sum, so it stays in 0..255 |
| Colors.SaturatingAddSwap | main.cpp:223 | two saturating additions into one channel commute |
| Colors.BlendSwap | main.cpp:220-224 | blending two colours in either order gives the same colour |
| Settings.IgnoreTestAsWritten | main.cpp:125 | with `FileIgnorePattern` absent, every path counts as matched; with a pattern, the test is the pattern's |
| Settings.IgnoreTest | main.cpp:125 | corrected: with `FileIgnorePattern` absent, no path is ignored |
| Settings.PrefixedTable | main.cpp:130-135 | the loop builds the prefixed-library table, last entry winning, an empty value naming the library after its prefix |
| Settings.PrefixedKeys | main.cpp:130-135 | the table's keys are exactly the keys read |
| Settings.PrefixedLookup | main.cpp:131-135 | a key read last at entry `i` maps to that entry's value, or to itself when the value is empty |
| Settings.PrefixedLibs | main.cpp:130-135 | the prefixed-library table after reading the entries in order; its keys and values are given by `PrefixedKeys` and `PrefixedLookup` |
| Settings.AddHeaders | main.cpp:140-141 | each header of one group, trimmed, registered under the group's library name, a later registration replacing an earlier one; `AddHeadersKeys`, `AddHeadersOverlay` and `AddHeadersLookup` state its keys and what each maps to |
| Settings.KnownLibs | main.cpp:138-141 | the known-library table after reading every group in order; `KnownLookup` states that a header maps to the last group listing it, `KnownKeys` that every key is a header of some group, `KnownValues` that every value is a group's name |
| Settings.KnownTable | main.cpp:138-141 | the nested loop registers every trimmed header under its library name |
| Settings.TrimmedStep | main.cpp:140-141 | one more header adds its trimmed form to the set of trimmed headers |
| Settings.AddHeadersKeys | main.cpp:140-141 | registering headers adds exactly their trimmed forms as keys |
| Settings.AddHeadersValues | main.cpp:140-141 | registering headers adds no value but the library name |
| Settings.AddHeadersOverlay | main.cpp:140-141 | after registering a group, every trimmed header of it maps to the group's name, and every other key keeps its earlier value |
| Settings.AddHeadersLookup | main.cpp:140-141 | every header of a group, trimmed, is a key mapping to the group's name |
| Settings.KnownLookup | main.cpp:138-141 | a header of group `i` that no later group lists (after trimming) is a key mapping to group `i`'s name: the last group listing a header wins |
| Settings.KnownKeys | main.cpp:138-141 | every key of the known-library table is a trimmed header of some group |
| Settings.KnownValues | main.cpp:138-141 | every known-library table value is the name of some group |
| IncludeLine.SkipBlanks | main.cpp:181 | ` *`: the first position from `i` that is not a space, with only spaces before it |
| IncludeLine.UpToLineFeed | main.cpp:181 | the rest of the line before the first line feed (the reach of `.`) |
| IncludeLine.LastCloserSplit | main.cpp:181 | the search for the last closer of a line fails exactly when the line has no closer; otherwise no closer follows the one it finds |
| IncludeLine.CaptureIn | main.cpp:181 | the greedy `(.*)[">]` on the rest of a line: no capture exactly when the rest holds no closer; otherwise the capture is the text before a closer after which the rest holds no other closer |
| IncludeLine.CaptureAt | main.cpp:181 | the capture after an opening delimiter at `k` is that of the rest of the line after `k` up to its line feed; a capture has no line feed and sits between the opening delimiter and a closing one |
| IncludeLine.MatchAt | main.cpp:181-182 | a match tried at `i` starts with `#` and captures a text without line feed that sits between an opening and a closing delimiter |
| IncludeLine.MatchAtShape | main.cpp:181 | a match at `i` needs `#` and, after blanks, the keyword; once those are found, the pattern matches exactly when an opening delimiter follows the blanks after the keyword and the capture after it succeeds, and that capture is the match |
| IncludeLine.MatchAtOpener | main.cpp:181 | a match at 0 passes the `#`, the keyword after blanks and an opening delimiter after blanks, and is the capture after that delimiter |
| IncludeLine.WholeLine | main.cpp:181 | on text without a line feed, the `.*` may run to the end of the text |
| IncludeLine.CaptureToEnd | main.cpp:181 | on a line without a line feed, the capture after an opening delimiter is taken on the whole rest of the line |
| IncludeLine.CaptureSplit | main.cpp:181 | a capture splits the rest of its line into the payload, the last closer and a tail with no closer |
| IncludeLine.MatchAtFound | main.cpp:181 | a match at 0 on a line without a line feed has found the `#`, the keyword, the opening delimiter and a capture on the rest of the line |
| IncludeLine.LayoutFromCapture | main.cpp:181 | those parts make up an include layout around the captured payload |
| IncludeLine.MatchAtLayout | main.cpp:181 | conversely to `MatchAtLaidOut`, a line without a line feed that matches at 0 is laid out as an include statement around the captured payload, so the layouts are exactly the lines matching at 0 |
| IncludeLine.SearchFrom | main.cpp:182 | the unanchored search: the pattern tried from position `i` on, the first position that matches giving the capture; `SearchFromLeftmost` and `SearchFromNone` state this |
| IncludeLine.SearchFromNone | main.cpp:182-184 | the search finds nothing exactly when the pattern matches at no position from `i` on |
| IncludeLine.SearchFromLeftmost | main.cpp:182 | the capture reported is the one of the leftmost matching position |
| IncludeLine.IncludePayload | main.cpp:181-186 | no capture exactly when the pattern matches nowhere; otherwise the capture is the match at the leftmost matching position, and it lies between delimiters in a line holding `#` |
| IncludeLine.LayoutBlanks | main.cpp:181 | on a line laid out as an include statement, the blanks are skipped up to the keyword and then up to the opening delimiter |
| IncludeLine.LayoutCapture | main.cpp:181 | on such a line, the rest of the line after the opening delimiter is the payload, the closing delimiter and a tail with no closer and no line feed |
| IncludeLine.LastCloser | main.cpp:181 | a closing delimiter followed only by text without closers is the last closer, whatever the payload holds (the capture is greedy) |
| IncludeLine.LastCloserAt | main.cpp:181 | a closer with no closer after it is the position the last-closer search finds |
| IncludeLine.CaptureLaidOut | main.cpp:181 | on such a line, the capture after the opening delimiter is the payload |
| IncludeLine.MatchAtParts | main.cpp:181 | the pattern matches at 0 once the `#`, the keyword after blanks, an opening delimiter after blanks and a capture are found in turn |
| IncludeLine.MatchAtLaidOut | main.cpp:181 | the pattern tried at 0 on a line laid out as an include statement captures its payload |
| IncludeLine.IncludeRoundTrip | main.cpp:181-186 | matching returns the payload of any line laid out as an include statement, with either delimiter on either side, delimiters inside the payload, and any text without closers after it (a comment) |
| IncludeLine.StatementLayout | main.cpp:181 | `#include`, one space and a delimited payload without line feed, followed by text without closers or line feed, is laid out as an include statement |
| IncludeLine.StatementRoundTrip | main.cpp:181-186 | matching such a written statement gives back its payload |
| IncludeLine.CommentedStatementRoundTrip | main.cpp:181-186 | a written statement followed by a comment or other text without closers still gives back its payload |
| IncludeLine.SkipBlanksSpan | main.cpp:181 | skipping blanks over a run of spaces stops at the first non-space |
| IncludeResolution.FirstSegment | main.cpp:43-46 | the text before the first `/`, or all of it |
| IncludeResolution.FirstSegmentOfPath | main.cpp:43-46 | the first segment of `dir/rest`, where `dir` has no `/`, is `dir` |
| IncludeResolution.PrefixedResolves | main.cpp:43-48 | an include whose first segment is a registered prefix resolves to that prefix's library, whatever follows and whatever exists on disk |
| IncludeResolution.Stem | main.cpp:55-56 | the text before the last `.` |
| IncludeResolution.StemOf | main.cpp:55-56 | the stem of `stem.ext` is `stem` |
| IncludeResolution.SiblingNode | main.cpp:57-63 | the source node when it ends with the stem, else the stem placed in the source node's directory |
| IncludeResolution.NodeFromInclude | main.cpp:35-70 | the rules in order: no `.`/`/` gives `c++`; a known prefix gives its library; an existing sibling file gives its node; a known header gives its library; otherwise the include is named like a source file |
| IncludeResolution.EmptyOnlyFromFallback | main.cpp:35-70 | with non-empty source node and library names, the result is empty exactly when no earlier rule applies and naming the include like a source file gives the empty node (for example an ignored path, a path that is all extension such as `.h`, or, at the module granularities, a stripped path whose only `/` is its first character, such as `/x.h`) |
| GraphBuilder.LineTarget | main.cpp:174-193 | a line yields a destination only when, trimmed, it starts with `#`, matches, and resolves to a node neither empty nor the file's own |
| GraphBuilder.LaidOutLineTarget | main.cpp:174-193 | on an include statement that does not end in white space, the destination is the resolved payload unless empty or self |
| GraphBuilder.StatementTarget | main.cpp:174-193 | a written include statement contributes its resolved payload, unless that is empty or the file's own node |
| GraphBuilder.CommentedStatementTarget | main.cpp:174-193 | so does a written statement followed by a comment or other text without closers that does not end in white space |
| GraphBuilder.AddEdge | main.cpp:195 | `graph[node].insert(dst)`: the key is created if missing, gains `dst`, and no other key changes |
| GraphBuilder.AddEdgeWellFormed | main.cpp:189-195 | a non-empty, non-self edge keeps the graph well formed |
| GraphBuilder.AddTarget | main.cpp:189-195 | no target leaves the graph as it is; a target is inserted into the successors of the file's node, the node's entry being created when missing; keeps well-formedness, changes only the file's own key, loses no edge |
| GraphBuilder.ProcessLine | main.cpp:172-195 | a line without a target leaves the graph as it is; a line with one inserts it into the successors of the file's node; keeps the graph well formed (no key `""`, no empty set, no self edge, no destination `""`), changes only the file's own key, loses no edge |
| GraphBuilder.AddTargetIdempotent | main.cpp:195 | inserting the same destination twice changes nothing the second time |
| GraphBuilder.ProcessLineIdempotent | main.cpp:172-195 | processing the same line twice changes nothing the second time |
| GraphBuilder.ScanLines | main.cpp:172-196 | the lines of one file processed in order, each by the line step; `ScanLinesEdges` states what it adds, `ScanLinesStep`, `ScanLinesWellFormed` and `ScanLinesTouchesOwnKey` what it keeps |
| GraphBuilder.LineTargets | main.cpp:172-193 | the target of each line of a file, one per line, in order |
| GraphBuilder.FoundMembers | main.cpp:195 | a destination is among the found targets exactly when some line's target names it |
| GraphBuilder.AddTargetsFound | main.cpp:195 | inserting a sequence of targets in turn adds exactly the found destinations to the node's successors, and changes nothing when none is found |
| GraphBuilder.ScanLinesAddsTargets | main.cpp:172-196 | scanning the lines of a file inserts their targets in order |
| GraphBuilder.ScanLinesEdges | main.cpp:172-196 | scanning a file adds to its node's successors exactly the destinations its lines resolve to (a destination is added exactly when some line resolves to it), and leaves the graph as it is when no line resolves |
| GraphBuilder.ScanLinesWellFormed | main.cpp:172-196 | scanning the lines of a file with a non-empty node keeps the graph well formed |
| GraphBuilder.ScanLinesTouchesOwnKey | main.cpp:172-196 | scanning a file changes no key but the file's own and loses no edge |
| GraphBuilder.ScanLinesStep | main.cpp:172-196 | scanning one more line is one more line step |
| GraphBuilder.ScanFile | main.cpp:172-196 | the loop over a file's lines computes the line-by-line scan |
| GraphBuilder.WithSlash | main.cpp:155-156 | the input directory ends with `/`: unchanged if it already did, otherwise with one `/` appended |
| GraphBuilder.RelativePath | main.cpp:165-166 | a path under the input directory loses exactly that prefix; any other path is kept |
| GraphBuilder.FileNode | main.cpp:160-168 | the node of a file: its path relative to the input directory, named at the configured granularity |
| GraphBuilder.AddFile | main.cpp:158-197 | one file: skipped when its node is empty, its lines scanned otherwise; `AddFileEdges` states what it adds, `AddFileWellFormed` what it keeps |
| GraphBuilder.AddFiles | main.cpp:158-197 | the files of one input directory in order; `AddFilesEdges` states what it adds, `AddFilesStep` and `AddFilesWellFormed` what it keeps |
| GraphBuilder.AddInputs | main.cpp:153-198 | all input directories in order; `AddInputsEdges` states what it adds, `AddInputsWellFormed` what it keeps |
| GraphBuilder.AddFileWellFormed | main.cpp:158-197 | every file keeps the graph well formed: a skipped file changes nothing, a scanned one has a non-empty node |
| GraphBuilder.AddFilesWellFormed | main.cpp:158-197 | the files of a directory keep the graph well formed |
| GraphBuilder.AddInputsWellFormed | main.cpp:153-198 | all input directories keep the graph well formed |
| GraphBuilder.AddFilesStep | main.cpp:158-197 | adding one more file is one more file step |
| GraphBuilder.ScanDir | main.cpp:158-197 | the loop over the files of one input directory computes the file-by-file scan |
| GraphBuilder.BuildGraph | main.cpp:152-198 | the nested loops compute the scan of all inputs from the empty graph, and the result is well formed |
| GraphBuilder.AddFileEdges | main.cpp:158-197 | a file adds to a node's successors exactly the destinations its lines resolve to when it is scanned as that node, and nothing otherwise |
| GraphBuilder.EdgeSets | main.cpp:158-197 | the destinations each file of a directory adds to a node, one set per file, in order |
| GraphBuilder.UnionMembers | main.cpp:158-197 | an element of a union of sets is in one of them, and conversely |
| GraphBuilder.FilesEdgesUnion | main.cpp:158-197 | the destinations a directory's files add are the union of each file's |
| GraphBuilder.AddFilesEdges | main.cpp:158-197 | the files of a directory add to each node's successors exactly their destinations for that node |
| GraphBuilder.AddInputsEdges | main.cpp:153-198 | all input directories add to each node's successors exactly the destinations of their files |
| GraphBuilder.FilesEdgesMembers | main.cpp:158-197 | a destination is added by a directory's files exactly when one of them adds it |
| GraphBuilder.InputsEdgesMembers | main.cpp:153-198 | a destination is added by the input directories exactly when the files of one of them add it |
| GraphBuilder.FileEdgesMembers | main.cpp:158-195 | a file adds `b` to `a` exactly when its node is the non-empty `a` and one of its lines resolves to `b` |
| GraphBuilder.BuildGraphEdges | main.cpp:152-198 | the graph of a whole run has the edge `a -> b` exactly when some file of some input directory adds it, that is, is scanned as `a` and has a line resolving to `b` |
| GraphBuilder.AllIgnoredFilesAddNothing | main.cpp:168-170 | when every path is ignored, no file adds anything |
| GraphBuilder.UnsetPatternGivesEmptyGraph | main.cpp:125 | as written, an absent `FileIgnorePattern` leaves the graph empty for every input |
| GraphBuilder.UnsetPatternScansEveryFile | main.cpp:13-33 | with the corrected ignore test, every file is named by its stripped path (or that path's module), so it is skipped only when that name is empty |
| Coloring.AddSeed | main.cpp:224-226 | one step of the loop over the seeds: the seed's colour blended in when the node depends on the seed |
| Coloring.SeedColor | main.cpp:224-226 | the colour after the loop over the seeds in order; `NoColorWithoutSeed`, `SeedOrderIrrelevant` and `SingleSeed` state what it is |
| Coloring.NoColorWithoutSeed | main.cpp:218-229 | a node has no colour exactly when it depends on none of the seeds |
| Coloring.ColorOf | main.cpp:218-226 | the loop over the seeds computes the blend of the colours of the seeds the node depends on, in order |
| Coloring.AddSeedSwap | main.cpp:225-226 | two seed steps commute |
| Coloring.SeedColorRemoveAt | main.cpp:225-226 | any one seed may be blended in last |
| Coloring.RemoveBeforeLast | main.cpp:225-226 | removing an element before the last keeps the last element last, after the rest with that element removed |
| Coloring.SeedOrderIrrelevant | main.cpp:225-226 | seeds visited in any order give the same colour |
| Coloring.RemoveMatching | main.cpp:225-226 | removing the same seed from two permutations leaves permutations |
| Coloring.SingleSeed | main.cpp:225-226 | a node depending on exactly one seed gets exactly that seed's colour (a seed node reaching no other seed gets its own colour) |
| Output.Libraries | main.cpp:207 | the library names: every value of the prefixed and of the known-library table |
| Output.GrayLibraries | main.cpp:207-212 | a library is styled gray exactly when it is a node and is not ignored |
| Output.ColorNodes | main.cpp:214-230 | exactly the non-ignored nodes with a colour are coloured, each with its blended colour |
| Output.EmitEdges | main.cpp:233-236 | an edge line is emitted exactly for each edge whose destination is not ignored |
| Output.EmittedEdgeIsEdge | main.cpp:233-236 | every emitted edge of a scanned graph is an edge between two distinct, non-empty graph nodes |
| Output.IgnoredSourceStillEmitted | main.cpp:233-236 | an edge out of an ignored node is still emitted; one into an ignored node is not |
| Output.Render | main.cpp:203-239 | the three passes produce the gray libraries, coloured nodes and edges described above |
| Output.Run | main.cpp:152-239 | the whole run: the scanned graph, well formed, and its rendering |
| Scenarios.StandardHeaders | main.cpp:37-41 | `vector` and `list` resolve to `c++` |
| Scenarios.PrefixedHeader | main.cpp:43-48 | `boost/optional.hpp` resolves to the library registered for `boost` |
| Scenarios.KnownHeaderPremises | main.cpp:37-67 | `zlib.h` is neither a standard, a prefixed nor, from `/p/a`, a sibling header, but it is a known one |
| Scenarios.KnownHeader | main.cpp:66-67 | a known header with a dot resolves through the known-library table |
| Scenarios.KnownHeaderShadowed | main.cpp:40-67 | a known header without `.` or `/` resolves to `c++` instead |
| Scenarios.OwnHeaderResolvesToItself | main.cpp:53-58 | `X.h`, lying beside `src/X.cpp` in `/p/src`, included from `src/X` resolves to `src/X` |
| Scenarios.OwnHeaderAddsNoEdge | main.cpp:192-193 | so the line `#include "X.h"` adds no edge |
| Scenarios.OwnHeaderTestIsTextual | main.cpp:57-58 | the same `X.h` included from `src/MyX` also resolves to `src/MyX`, because `endsWith` compares text |
| Scenarios.EveryExtensionDeleted | main.cpp:19-22 | `a.h/b.h` is named `a/b`: every `.h` is deleted, not only the last |
| Scenarios.BareExtensionPremises | main.cpp:37-67 | `.h` is neither a standard, a prefixed, a sibling (from `/p/a`) nor a known header |
| Scenarios.BareExtensionStripped | main.cpp:20 | deleting `.h` from `.h` leaves nothing |
| Scenarios.BareExtensionResolvesToEmpty | main.cpp:35-70 | an include of `.h` resolves to the empty node with nothing ignored |
| Scenarios.RootFileStripped | main.cpp:20 | deleting `.h` from `/x.h` leaves `/x` |
| Scenarios.RootModuleEmpty | main.cpp:24-26 | the text before the only `/` of `/x` is empty |
| Scenarios.RootFileHasEmptyModule | main.cpp:24-26 | at both module granularities `/x.h` names the empty node with nothing ignored, since the text before its last `/` is empty |
| Scenarios.RelativeUnderP | main.cpp:156-166 | a file under `/p/a` has relative path `a/...` |
| Scenarios.ClassNodeOfFile | main.cpp:13-22 | at class granularity with nothing ignored, a single-dot path loses its extension |
| Scenarios.FooNode | main.cpp:168 | `a/Foo.cpp` is named `a/Foo` |
| Scenarios.BarNode | main.cpp:168 | `a/Bar.h` is named `a/Bar` |
| Scenarios.BarIsSibling | main.cpp:53-56 | `Bar.h` exists next to `a/Foo.cpp` and has stem `Bar` |
| Scenarios.BarBesideFoo | main.cpp:57-63 | stem `Bar` is placed in `a`, giving `a/Bar` |
| Scenarios.FooIncludesBar | main.cpp:35-70 | `"Bar.h"` from `a/Foo` resolves to `a/Bar` |
| Scenarios.FooLinePremises | main.cpp:35-70 | `"Bar.h"` resolves from `a/Foo` to `a/Bar`, which is neither empty nor `a/Foo` |
| Scenarios.FooLineTarget | main.cpp:174-195 | the line `#include "Bar.h"` contributes the edge to `a/Bar` |
| Scenarios.CommentPremises | main.cpp:181 | ` // Bar` holds no closer, no line feed and ends in no white space |
| Scenarios.CommentedLineTarget | main.cpp:174-195 | the line `#include "Bar.h" // Bar` also contributes the edge to `a/Bar` |
| Scenarios.ScanOneLine | main.cpp:172-196 | a one-line file is one line step |
| Scenarios.EdgeIntoEmpty | main.cpp:195 | an insertion into the empty graph creates the single-edge graph |
| Scenarios.FooScan | main.cpp:172-196 | scanning `a/Foo.cpp` gives `a/Foo -> a/Bar` |
| Scenarios.FooFileAdded | main.cpp:158-197 | adding `a/Foo.cpp` gives that graph |
| Scenarios.BarFileAdded | main.cpp:158-197 | the empty `a/Bar.h` adds nothing |
| Scenarios.ExampleGraph | main.cpp:152-198 | the two-file tree yields exactly the edge `a/Foo -> a/Bar` |
| Scenarios.ExampleLibraries | main.cpp:207 | the example's libraries are exactly `Boost`, `ZLib` and `Qt` |
| Scenarios.ExampleOutput | main.cpp:203-239 | its output has no gray library, no coloured node, and exactly the edge line `"a/Foo" -> "a/Bar"` |
| Scenarios.ExampleGraphAsWritten | main.cpp:125 | as written, the same tree with `FileIgnorePattern` absent gives the empty graph |

## Left out

- The directory walk `srcs` (main.cpp:72-86) and `FilePatterns` are not modelled. Each input directory arrives as a list of `SourceFile` values, each with its absolute path, its directory and its lines.
- Reading the settings file with `QSettings` (main.cpp:123-147) is left out:
  - The library tables are built from groups that are already parsed.
  - `[Coloring]` arrives as a sequence of (node, colour) pairs.
  - `LibraryIgnoreList` arrives as a set.
- Opening a source file, and the `exit(0)` when that fails (main.cpp:161-163), are left out, because they are I/O.
- `QFileInfo::exists` and matching `FileIgnorePattern` are not modelled. Both become `string -> bool` parameters, since they are file-system and regex-engine calls.
- The include pattern of main.cpp:181 is modelled by hand, not by a regex engine:
  - `.` matches any character except a line feed;
  - spaces are literal spaces;
  - the search is leftmost-first, with a greedy capture.
- `QColor` is not modelled:
  - Colours read from `[Coloring]` are assumed valid, so an invalid seed colour is not modelled.
  - `color.name()` hex formatting is not modelled.
- `QTextStream` output, quoting and line order (main.cpp:200-239) are not modelled. The output is three sets; text order in the source follows `QSet`/`QMap` iteration, which is hash or key order.
- The iteration order of `coloring` is taken as given by the sequence. `Coloring.SeedOrderIrrelevant` shows that the order does not matter.
- Strings are sequences of characters. `trimmed` uses ASCII white space, as `QByteArray::trimmed` does for the lines read at main.cpp:174; UTF-16 and encoding details are not modelled.
- Settings.AddHeaders: main.cpp:141 trims header names with `QString::trimmed`, which also strips Unicode white space such as U+00A0; the model trims ASCII white space only, so a header name padded with other Unicode white space keeps it (the same holds for `Settings.KnownLibs` and `Settings.KnownTable`).
- Strings.RemoveAll: its own contract states only that the result is no longer than the input. Which text it deletes is stated by two lemmas that together fix the result on every input: `RemoveAllAbsent` (no occurrence, nothing deleted) and `RemoveAllAt` (the first occurrence deleted, the text before it kept, the rest handled alike).
- NodeNaming.StripExtension: its own contract states only the length bound. `StripDotted` ties it to deleting every `.suffix` from the whole path, and `StripSingleExtension` and `StripRepeatedExtension` work out the paths with one and with two occurrences.

## Findings

| source | as written | input that shows it | evidently intended | confidence | as-written member | corrected member |
|---|---|---|---|---|---|---|
| main.cpp:125 | an absent `FileIgnorePattern` becomes an empty regular expression, which matches every path, so every file is ignored and the graph is always empty | the tree `a/Foo.cpp` (including `"Bar.h"`) plus `a/Bar.h`, with no `FileIgnorePattern`: the program draws no edge, while the evidently intended behaviour draws `a/Foo -> a/Bar` | no pattern ignores nothing | not executed; high, because an empty `QRegularExpression` is valid and matches the empty string at position 0 of any subject | Settings.IgnoreTestAsWritten, GraphBuilder.UnsetPatternGivesEmptyGraph, Scenarios.ExampleGraphAsWritten | Settings.IgnoreTest, GraphBuilder.UnsetPatternScansEveryFile, Scenarios.ExampleGraph |
