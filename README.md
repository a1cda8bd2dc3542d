# Circular code analyser — a verified model

The application checks whether a set of words of equal length (a *code*) is
**circular**. For each word `w` and each split point `0 < i < |w|` it draws
an edge from the prefix `w[..i]` to the suffix `w[i..]`, and each node's
layer is its length. The code is circular exactly when this split graph has
no directed cycle. A circular code is then classified by the length of the
longest path:

- 1 edge: strong comma-free;
- 2 edges: comma-free;
- anything else: no special label.

For a code that is not circular, the edges of the reported cycles are
flagged. The browser front end keeps the answers in a list with a cursor and
a navigation bar. It can export every answer as a Markdown report, after
rendering each graph as an image.

The model has one Dafny module per part of the program:

| file | module | part of the program |
|---|---|---|
| `wrappers.dfy` | `Wrappers` | `Option` and `Result`, for `None` returns and raised errors |
| `strings.dfy` | `Strings` | Python's `split`, `join`, `strip`, `upper` and `sorted`, and number formatting |
| `words.dfy` | `Words` | `unique_preserve_order`, `parse_words`, `verify_uniform_and_metadata` |
| `split_graph.dfy` | `SplitGraph` | `build_graph`, paths and cycles, `is_circular` (Kahn's topological sort) |
| `longest_paths.dfy` | `LongestPaths` | `longest_paths_in_dag`: the longest-path table, backtracking, `max_paths` |
| `analysis.dfy` | `Analysis` | `analyze_code_text`: verdict, classification, cycle flags, elements, summary |
| `report.dfy` | `Report` | `generateAndDownloadReport` and `generateGraphImages` |
| `results_page.dfy` | `ResultsPage` | the page state of `static/main.js`, as the class `ResultPage` |

Functional code is modelled as functions and lemmas. Code that updates
state step by step is modelled as methods with loops:

- the `for` loops that build lists, graphs, tables and the Markdown text;
- the global `currentResults`/`currentIndex`/`currentSource` state, which is a
  class whose methods change its fields.

Each method is proved against a specification function or predicate, and
the program's promises are proved about that specification.

Three behaviours of the front end are worth stating plainly, because the
model reproduces them as the code has them:

- **The image pass re-renders every eligible result.** `generateGraphImages`
  renders every result without an error and with elements. It does not skip
  results that already have an image.
- **A failed render ends the pass.** The earlier results keep their new
  images and the later ones are left untouched. The click handler then
  builds the report from these results. Rendering failures are therefore not
  handled one entry at a time.
- **The report builder is identical in both files.** The two copies of
  `generateAndDownloadReport` (in `static/main.js` and `static/report.js`)
  are the same, so it is modelled once.

## Model

| member | source | states |
|---|---|---|
| Strings.Strip | app.py:23 | the stripped word neither starts nor ends with whitespace, and a word without whitespace is left as it is |
| Strings.StripWithin | app.py:23 | the stripped word is a contiguous piece of the word, and everything dropped before and after it is whitespace |
| Strings.StripMembers | app.py:23 | stripping adds no character |
| Strings.SplitJoin | app.py:154 | splitting a join of newline-free lines at the newline gives the lines back |
| Strings.JoinSplit | app.py:23 | joining the pieces of a split with the separator gives the text back |
| Strings.NatToStringInjective | static/main.js:211 | different numbers render as different digit strings |
| Strings.SortedDistinctCorrect | app.py:35 | `sorted(set(s))` is sorted, duplicate-free and has exactly the members of `s` |
| Strings.SortedStrings | app.py:84 | the sorted list of a set of strings is sorted, duplicate-free, and holds exactly the set's members |
| Words.DedupCorrect | app.py:8-15 | the de-duplicated list has no duplicates, the same members as the input, and keeps first occurrences in order |
| Words.UniquePreserveOrder | app.py:8-15 | the loop with its `seen` set computes exactly that de-duplicated list |
| Words.WordsOfParsed | app.py:18-24 | every parsed word is non-empty and holds no ASCII lower-case letter, no comma, newline, carriage return or tab, and no space (other whitespace inside a word is kept) |
| Words.ParseWords | app.py:18-24 | the loop computes the parsed words, empty text gives no word, and every word is clean |
| Words.ParseJoinedWords | app.py:18-24 | parsing clean upper-case tokens joined by spaces gives the tokens back |
| Words.CleanTokenKept | app.py:23 | a non-empty word without whitespace and without ASCII lower-case letters is left unchanged by `strip()` and `upper()` |
| Words.UniformIffOneLength | app.py:30-31 | the set of word lengths has one element exactly when every word has the first word's length |
| Words.VerifyUniformAndMetadata | app.py:27-36 | the first error is an empty list and the second is mixed lengths, reported with the length set. Otherwise the words are de-duplicated in first-occurrence order, `n` is the common length, and the alphabet is the sorted, duplicate-free set of the letters used |
| SplitGraph.WordSplitIff | app.py:43-45 | `(u, v)` is a split of `w` exactly when both halves are non-empty and `u + v == w` |
| SplitGraph.SplitEdgeIff | app.py:42-48 | `(u, v)` is an edge exactly when both halves are non-empty and `u + v` is one of the words |
| SplitGraph.BuildGraph | app.py:39-49 | the edges are exactly the splits of the words, and the nodes are exactly their halves. Each node's layer is its length, and each edge carries its word and split point |
| SplitGraph.SplitGraphUnique | app.py:39-49 | those facts determine the graph |
| SplitGraph.NoSplitsIffShort | app.py:40-43 | the graph has no edge and no node exactly when the words have fewer than two letters |
| SplitGraph.TopologicalOrderAcyclic | app.py:52-54 | a graph with a topological order has no cycle |
| SplitGraph.StuckHasCycle | app.py:52-54 | if every node of a non-empty set has a predecessor in it, the graph has a cycle |
| SplitGraph.TopologicalSort | app.py:58-60 | Kahn's algorithm finds an order exactly when the graph is acyclic, and the order it finds is topological |
| SplitGraph.IsCircular | app.py:52-54 | circular exactly when the graph has no directed cycle, self-loops and 2-cycles included |
| LongestPaths.Relax | app.py:65-70 | relaxing one edge keeps the invariant of the longest-path table: lengths and parents are right for the edges seen so far |
| LongestPaths.RelaxEdge | app.py:65-70 | the body of the inner loop keeps the labelling invariant with the edge `(u, v)` handled: each handled edge raises `dist` by at least one, `v` has parents exactly when its `dist` is positive, and its parents are exactly the handled edges into it that raise `dist` by exactly one |
| LongestPaths.RelaxEdgesFrom | app.py:64-70 | the loop over the successors of `u` relaxes exactly the edges leaving `u` |
| LongestPaths.LongestDistances | app.py:60-70 | after the loop over the topological order, `dist` and `parents` are the longest-path labelling of the graph |
| LongestPaths.DistIsLongestEndingAt | app.py:61-70 | `dist[v]` is the length of a longest path ending at `v`: no path ending at `v` is longer, and one has that length |
| LongestPaths.ZeroIffNoIncoming | app.py:78 | `dist[v] == 0` exactly when `v` has no incoming edge |
| LongestPaths.Backtrack | app.py:75-82 | backtracking extends the path list and stops at `max_paths`. Every added path runs from a node of distance 0 to `v` along parents and ends with the accumulated suffix. The added paths are distinct, and while fewer than `max_paths` paths are known they are every such path |
| LongestPaths.MaxIndex | app.py:71 | the index of a node with the greatest distance |
| LongestPaths.GreatestDistIsLongest | app.py:71 | the greatest distance is the length of a longest path of the graph |
| LongestPaths.EndsAtLength | app.py:72 | every end node has distance `L` |
| LongestPaths.CollectPaths | app.py:84-87 | the loop over the sorted ends returns at most `max_paths` distinct paths, at least one when there are ends. Each is a path of `L + 1` nodes starting at a node without incoming edge, and below `max_paths` every path of `L + 1` nodes is listed |
| LongestPaths.LongestPathsInDag | app.py:57-88 | `(None, [])` exactly for a cyclic graph, and an error exactly for an acyclic graph without nodes. Otherwise `L` is the longest path length, and the paths are distinct, at most `max_paths`, non-empty, with `L + 1` nodes each and following edges. When fewer than `max_paths` are found, they are all the longest paths of the graph |
| Analysis.Classification | app.py:100-106 | strong comma-free exactly for `L == 1`, comma-free exactly for `L == 2`, no special label otherwise |
| Analysis.RingEdgesIff | app.py:113-116 | the edges collected from one reported cycle join each node to the next, the last one to the first |
| Analysis.CycleEdgesIff | app.py:112-116 | an edge is flagged exactly when it joins two neighbours of a reported cycle |
| Analysis.CollectCycleEdges | app.py:110-117 | the nested loops collect exactly those edges |
| Analysis.ListedCycleIsCycle | app.py:110-116 | a reported cycle, closed by its first node, is a cycle of the graph |
| Analysis.FlaggedEdgesLieOnCycles | app.py:108-126 | when the reported cycles are cycles of the graph, every flagged edge is an edge of the graph joining two consecutive nodes of one of its cycles, so any flag means the graph has a cycle |
| Analysis.CircularVerdictDetermined | app.py:96-117 | two verdicts on one graph agree on circularity and on the flagged edges. Circular ones also agree on the length and its label, and, below `max_paths`, on the set of listed paths |
| Analysis.EmptyGraphAcyclic | app.py:40-43 | a graph without nodes has no cycle |
| Analysis.Assess | app.py:96-117 | fails exactly for an acyclic graph without nodes. A circular verdict carries the longest length, its classification and the distinct longest paths, all of them when fewer than `max_paths`. A verdict that is not circular carries the flagged edges of the reported cycles |
| Analysis.BuildElements | app.py:120-133 | one element per node (id, label, layer) and one per edge (label `word\|i=split`, cycle flag exactly for flagged edges), without duplicates |
| Analysis.HeaderLinesNewlineFree | app.py:136-142 | no line describing the code holds a newline |
| Analysis.PathLinesNewlineFree | app.py:149 | a path line, its nodes joined by `" -> "`, holds no newline when no node does |
| Analysis.VerdictLinesNewlineFree | app.py:143-151 | no line describing the verdict holds a newline |
| Analysis.SummaryReadBack | app.py:153-154 | splitting the summary at newlines gives back its lines |
| Analysis.CodeNewlineFree | app.py:18-24 | no validated word and no letter of the alphabet holds a newline |
| Analysis.NodesNewlineFree | app.py:42-48 | no node of the split graph holds a newline |
| Analysis.AnalyzeCodeText | app.py:91-157 | validation errors pass through, and the graph error occurs exactly for one-letter words. Otherwise `circular` holds exactly for an acyclic split graph, and the summary, its lines and the elements describe the verdict on it |
| Report.ReportText | static/report.js:6-32 | no document exactly when the results are missing or empty |
| Report.ReportStartsWithTitle | static/report.js:12 | the document opens with `# Circular Code Analysis Report` |
| Report.AppendHeader | static/report.js:9-15 | the four appends give the header: title, date, source (or "Unknown Source"), count |
| Report.AppendSection | static/report.js:17-31 | the appends of the loop body give one result's section |
| Report.GenerateReport | static/main.js:199-224 | the document built by `+=` in the loop is the specified report |
| Report.LabelsDistinct | static/report.js:18 | with several results no two sections share a label |
| Report.ErrorLineIff | static/report.js:19-23 | a section opens with its heading, followed by the error line exactly when the error is truthy |
| Report.ImageIff | static/report.js:28-31 | a section ends with the image reference exactly when the image is truthy, and with the closing fence otherwise |
| Report.GenerateGraphImages | static/report.js:47-82 | results with an error or without elements are left as they are and the others get their rendered image, in order. A failed render ends the pass, leaving the rest unchanged. The pass completes exactly when every rendering succeeds |
| ResultsPage.Navigation | static/main.js:116-125 | the bar is shown exactly for more than one result; prev is disabled exactly at the first, next exactly at the last |
| ResultsPage.Moved | static/main.js:127-129 | showResult moves to an index in range and otherwise stays |
| ResultsPage.DisabledIffRefused | static/main.js:120-128 | a button is disabled exactly when its move would be refused |
| ResultsPage.NextThenPrev | static/main.js:293-294 | when next is enabled, next and then prev come back to the same result |
| ResultsPage.ResultPage.constructor | static/main.js:24-26 | no results, index 0, empty source |
| ResultsPage.ResultPage.ApplyResult | static/main.js:89-114 | shows the summary (or a dash), and draws the elements or clears the graph for an error (`Drawn`). Nothing else changes |
| ResultsPage.ResultPage.UpdateNavigation | static/main.js:116-125 | sets the bar from `Navigation`; hiding it leaves its parts unchanged |
| ResultsPage.ResultPage.ShowResult | static/main.js:127-132 | an out-of-range index changes nothing. An index in range becomes current, its summary and graph are shown, and the navigation bar is set from `Navigation`. Results, source and report button are unchanged |
| ResultsPage.ResultPage.Prev | static/main.js:293 | at the first result nothing changes. Otherwise the previous result becomes current and is shown with its navigation, as by `ShowResult` |
| ResultsPage.ResultPage.Next | static/main.js:294 | at the last result nothing changes. Otherwise the next result becomes current and is shown with its navigation, as by `ShowResult` |
| ResultsPage.ResultPage.Analyze | static/main.js:134-159 | the navigation bar is hidden. A failure shows its error and hides the report button, keeping the results and the graph. A success makes the answer the only result, at index 0, from "Manual Input", and shows it |
| ResultsPage.ResultPage.AnalyzeFileUpload | static/main.js:161-197 | a failure shows its error and keeps the results and the graph. On success the results are the answer's list or the answer itself, at index 0, from the file name. An empty list shows "No valid codes found.", hides the report button and keeps the graph. Otherwise the first result is shown with its navigation |
| ResultsPage.ResultPage.DownloadReport | static/report.js:85-111 | nothing without results. Otherwise it produces the report of the results after the image pass, whether or not the pass failed, and the results keep the images rendered before any failure. A reported failure names a result with elements whose render failed, and the pass completes exactly when every such render succeeds. The display is unchanged |

## Left out

- Flask routes, request decoding and UTF-8 decoding of uploads (app.py:161-198): HTTP plumbing. `AnalyzeCodeText`'s `Failure` is the exception the routes turn into `{"ok": false, "error": ...}`.
- `fetch`, `FormData`, JSON decoding, `alert`, `console` and button text/disabled toggling: browser I/O. A reply is a parameter, and a thrown request is `Failure(text)`.
- The theme toggle (static/main.js:1-10) and the style and layout tables (static/main.js:28-87): browser storage and constant data.
- Cytoscape rendering, layout and `png()` snapshots: a foreign library with floating-point layout. The renderer is a function from elements to an optional image.
- `Date().toLocaleString()`, `encodeURIComponent` and the anchor-click download: locale and browser behaviour. The date is a parameter and the report is returned as a string.
- `nx.simple_cycles`: an opaque library call. It is a parameter returning the reported cycles, or `None` when it raises, in which case nothing is flagged.
- `nx.topological_sort` and `G.successors`: Kahn's algorithm and successor sets stand in for networkx's iteration order. The lengths, parents and paths do not depend on that order, because ends and parents are visited in sorted order.
- Analysis.BuildElements: states the members of the element list, not their order. networkx's insertion order is not modelled.
- Analysis.AnalyzeCodeText: `max_paths` is fixed at its default of 2000, as analyze_code_text calls it.
- Strings.Upper: models ASCII upper-casing only. Python's Unicode case mapping, which can change a word's length, is not modelled.
- ResultsPage.ResultPage.DownloadReport: JavaScript mutates the shared result objects in place. Here the results field is reassigned to the updated list, so aliasing is not modelled.
- ResultsPage.ResultPage.constructor: the page markup is not part of this model, so the initial summary text and the hidden navigation bar and report button are assumed.
- JavaScript truthiness is modelled for optional strings only. Replies whose `error`, `summary` or `graphImage` fields are not strings are not modelled.
