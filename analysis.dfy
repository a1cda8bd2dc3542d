/**
 * analyze_code_text (app.py, lines 91-157): parse and validate the code,
 * build its split graph, decide circularity, and for a circular code find
 * the longest paths and the classification they give; for a code that is not
 * circular, flag the edges of the cycles the cycle enumeration reports. The
 * answer carries a text summary and the elements drawn by the front end.
 *
 * The cycle enumeration (networkx's simple_cycles) is a parameter: it maps
 * the graph to the list of cycles it reports, or to None when it raises.
 */
module Analysis {
  import opened Wrappers
  import opened Strings
  import opened Words
  import opened SplitGraph
  import opened LongestPaths

  /** The `max_paths` default analyze_code_text relies on. */
  const MaxPaths: nat := 2000

  // ---------------------------------------------------------------------------
  // Classification
  // ---------------------------------------------------------------------------

  /** The three labels a circular code can get. */
  datatype Label = StrongCommaFree | CommaFree | NoSpecialLabel

  /** The label a circular code gets from the length of its longest path. */
  function Classification(length: nat): (c: Label)
    ensures c == StrongCommaFree <==> length == 1
    ensures c == CommaFree <==> length == 2
    ensures c == NoSpecialLabel <==> length != 1 && length != 2
  {
    if length == 1 then StrongCommaFree
    else if length == 2 then CommaFree
    else NoSpecialLabel
  }

  /** The text of a label, as the summary shows it. */
  function LabelText(c: Label): string {
    match c
    case StrongCommaFree => "code strong comma-free"
    case CommaFree => "code comma-free"
    case NoSpecialLabel => "(no special label)"
  }

  // ---------------------------------------------------------------------------
  // Cycle edges
  // ---------------------------------------------------------------------------

  /** The edge from the `j`-th node of a reported cycle to the next one,
      the last node leading back to the first. */
  function RingEdge(c: seq<string>, j: nat): Edge
    requires j < |c|
  {
    (c[j], c[(j + 1) % |c|])
  }

  /** The edges of a reported cycle `c` leaving its first `i` nodes. */
  function RingEdges(c: seq<string>, i: nat): set<Edge>
    requires i <= |c|
  {
    if i == 0 then {} else RingEdges(c, i - 1) + {RingEdge(c, i - 1)}
  }

  /** The edges of all reported cycles. */
  function CycleEdgesOf(cycles: seq<seq<string>>): set<Edge> {
    if |cycles| == 0 then {}
    else CycleEdgesOf(cycles[..|cycles| - 1]) + RingEdges(cycles[|cycles| - 1], |cycles[|cycles| - 1]|)
  }

  lemma {:induction false} RingEdgesIff(c: seq<string>, i: nat, e: Edge)
    requires i <= |c|
    ensures e in RingEdges(c, i) <==> exists j :: 0 <= j < i && e == RingEdge(c, j)
    decreases i
  {
    if i > 0 {
      RingEdgesIff(c, i - 1, e);
    }
  }

  /** An edge is flagged exactly when it joins two neighbours of a reported
      cycle, the last node to the first included. */
  lemma {:induction false} CycleEdgesIff(cycles: seq<seq<string>>, e: Edge)
    ensures e in CycleEdgesOf(cycles) <==>
              exists k, j :: 0 <= k < |cycles| && 0 <= j < |cycles[k]| && e == RingEdge(cycles[k], j)
    decreases |cycles|
  {
    if |cycles| > 0 {
      var init, last := cycles[..|cycles| - 1], cycles[|cycles| - 1];
      CycleEdgesIff(init, e);
      RingEdgesIff(last, |last|, e);
      if exists k, j :: 0 <= k < |cycles| && 0 <= j < |cycles[k]| && e == RingEdge(cycles[k], j) {
        var k, j :| 0 <= k < |cycles| && 0 <= j < |cycles[k]| && e == RingEdge(cycles[k], j);
        if k < |init| {
          assert init[k] == cycles[k];
        }
      }
      if exists k, j :: 0 <= k < |init| && 0 <= j < |init[k]| && e == RingEdge(init[k], j) {
        var k, j :| 0 <= k < |init| && 0 <= j < |init[k]| && e == RingEdge(init[k], j);
        assert init[k] == cycles[k];
      }
    }
  }

  /** The loops of analyze_code_text over the reported cycles, adding each
      pair of neighbours to the flagged set. */
  method CollectCycleEdges(cycles: seq<seq<string>>) returns (flagged: set<Edge>)
    ensures flagged == CycleEdgesOf(cycles)
  {
    flagged := {};
    for k := 0 to |cycles|
      invariant flagged == CycleEdgesOf(cycles[..k])
    {
      var cycle := cycles[k];
      ghost var before := flagged;
      for i := 0 to |cycle|
        invariant flagged == before + RingEdges(cycle, i)
      {
        var u := cycle[i];
        var v := cycle[(i + 1) % |cycle|];
        assert (u, v) == RingEdge(cycle, i);
        flagged := flagged + {(u, v)};
      }
      assert cycles[..k + 1][..k] == cycles[..k];
    }
    assert cycles[..|cycles|] == cycles;
  }

  /** The edges flagged for the answer of the cycle enumeration: none when it
      raises. */
  function FlaggedEdges(reported: Option<seq<seq<string>>>): set<Edge> {
    match reported
    case None => {}
    case Some(cycles) => CycleEdgesOf(cycles)
  }

  /** `c` is a cycle of `g` as simple_cycles lists it: its nodes in order,
      the edge back to the first node implied. */
  ghost predicate ListedCycle(g: Graph, c: seq<string>) {
    |c| > 0 && forall j :: 0 <= j < |c| ==> RingEdge(c, j) in g.edges
  }

  /** Closing a reported cycle by its first node makes each of its ring
      edges a pair of consecutive nodes. */
  lemma RingEdgeOfClosed(c: seq<string>, j: nat)
    requires j < |c|
    ensures j + 1 < |c + [c[0]]|
    ensures ((c + [c[0]])[j], (c + [c[0]])[j + 1]) == RingEdge(c, j)
  {
    if j + 1 < |c| {
      assert (j + 1) % |c| == j + 1;
    } else {
      assert (j + 1) % |c| == 0;
    }
  }

  /** A listed cycle, closed by its first node, is a cycle of the graph. */
  lemma ListedCycleIsCycle(g: Graph, c: seq<string>)
    requires g.Closed() && ListedCycle(g, c)
    ensures IsCycle(g, c + [c[0]])
  {
    var p := c + [c[0]];
    forall k | 0 <= k < |p| - 1 ensures (p[k], p[k + 1]) in g.edges {
      RingEdgeOfClosed(c, k);
    }
    forall k | 0 <= k < |p| ensures p[k] in g.layer {
      if k < |c| {
        assert RingEdge(c, k) in g.edges;
      } else {
        assert RingEdge(c, 0) in g.edges;
      }
    }
  }

  /** `e` joins two consecutive nodes of some cycle of `g`. */
  ghost predicate OnCycle(g: Graph, e: Edge) {
    exists c, k :: IsCycle(g, c) && 0 <= k < |c| - 1 && (c[k], c[k + 1]) == e
  }

  /** A ring edge of a listed cycle lies on a cycle of the graph. */
  lemma RingEdgeOnCycle(g: Graph, c: seq<string>, j: nat)
    requires g.Closed() && ListedCycle(g, c) && j < |c|
    ensures OnCycle(g, RingEdge(c, j))
  {
    ListedCycleIsCycle(g, c);
    RingEdgeOfClosed(c, j);
    var p := c + [c[0]];
    assert IsCycle(g, p) && 0 <= j < |p| - 1 && (p[j], p[j + 1]) == RingEdge(c, j);
  }

  /** When the enumeration reports genuine cycles, every flagged edge is an
      edge of the graph lying on one of its cycles, so any flag means the
      graph is not acyclic. */
  lemma FlaggedEdgesLieOnCycles(g: Graph, reported: Option<seq<seq<string>>>)
    requires g.Closed()
    requires reported.Some? ==> forall c :: c in reported.value ==> ListedCycle(g, c)
    ensures FlaggedEdges(reported) <= g.edges.Keys
    ensures forall e :: e in FlaggedEdges(reported) ==> OnCycle(g, e)
    ensures FlaggedEdges(reported) != {} ==> !Acyclic(g)
  {
    if reported.Some? {
      var cycles := reported.value;
      forall e | e in CycleEdgesOf(cycles) ensures e in g.edges && OnCycle(g, e) {
        CycleEdgesIff(cycles, e);
        var k, j :| 0 <= k < |cycles| && 0 <= j < |cycles[k]| && e == RingEdge(cycles[k], j);
        assert cycles[k] in cycles;
        RingEdgeOnCycle(g, cycles[k], j);
      }
      if CycleEdgesOf(cycles) != {} {
        var e :| e in CycleEdgesOf(cycles);
        var c, k :| IsCycle(g, c) && 0 <= k < |c| - 1 && (c[k], c[k + 1]) == e;
      }
    }
  }

  // ---------------------------------------------------------------------------
  // Verdict: circularity, longest paths, classification
  // ---------------------------------------------------------------------------

  /** What analyze_code_text decides about the graph: for a circular code the
      longest-path length, its classification and the longest paths; for
      any other code the flagged cycle edges. */
  datatype Verdict =
    | Circular(length: nat, classification: Label, paths: seq<seq<string>>)
    | NotCircular(cycleEdges: set<Edge>)

  /** The errors analyze_code_text raises: those of the validation, and the
      ValueError of `max()` over the empty `dist` of a graph without nodes. */
  datatype AnalysisError = InvalidCode(reason: VerifyError) | NoSplits

  /** `length` is the length, in edges, of a longest path of `g`. */
  ghost predicate IsLongestPathLength(g: Graph, length: nat) {
    && (forall p :: IsPath(g, p) ==> |p| - 1 <= length)
    && (exists p :: IsPath(g, p) && |p| - 1 == length)
  }

  /** A graph has at most one longest-path length. */
  lemma LongestPathLengthUnique(g: Graph, a: nat, b: nat)
    requires IsLongestPathLength(g, a) && IsLongestPathLength(g, b)
    ensures a == b
  {
    var p :| IsPath(g, p) && |p| - 1 == a;
    var q :| IsPath(g, q) && |q| - 1 == b;
  }

  /** The verdict analyze_code_text reaches for `g`. */
  ghost predicate Assessed(g: Graph, reported: Option<seq<seq<string>>>, v: Verdict) {
    match v
    case Circular(length, classification, paths) =>
      && Acyclic(g)
      && IsLongestPathLength(g, length)
      && classification == Classification(length)
      && 0 < |paths| <= MaxPaths
      && (forall q :: q in paths ==> IsPath(g, q) && |q| == length + 1 && NoIncoming(g, q[0]))
      && NoDuplicates(paths)
      && (|paths| < MaxPaths ==> forall p :: IsPath(g, p) && |p| == length + 1 ==> p in paths)
    case NotCircular(cycleEdges) =>
      !Acyclic(g) && cycleEdges == FlaggedEdges(reported)
  }

  /** The verdict on a graph is determined: two assessments agree on
      circularity, on the length and its label, and, below `MaxPaths`, on
      the set of longest paths listed. */
  lemma CircularVerdictDetermined(g: Graph, reported: Option<seq<seq<string>>>, v: Verdict, w: Verdict)
    requires Assessed(g, reported, v) && Assessed(g, reported, w)
    ensures v.Circular? <==> w.Circular?
    ensures v.NotCircular? ==> v == w
    ensures v.Circular? ==> v.length == w.length && v.classification == w.classification
    ensures v.Circular? && |v.paths| < MaxPaths && |w.paths| < MaxPaths ==>
      forall q :: q in v.paths <==> q in w.paths
  {
    if v.Circular? && w.Circular? {
      LongestPathLengthUnique(g, v.length, w.length);
    }
  }

  /** A graph without nodes has no cycle. */
  lemma EmptyGraphAcyclic(g: Graph)
    requires g.layer.Keys == {}
    ensures Acyclic(g)
  {
    forall p ensures !IsCycle(g, p) {
      if |p| > 0 {
        assert p[0] !in g.layer;
      }
    }
  }

  /** Lines 96-117 of analyze_code_text: circularity, then either the longest
      paths and the classification or the flagged cycle edges. */
  method Assess(g: Graph, simpleCycles: Graph -> Option<seq<seq<string>>>) returns (r: Result<Verdict, AnalysisError>)
    requires g.Closed()
    ensures r.Failure? <==> Acyclic(g) && g.layer.Keys == {}
    ensures r.Failure? ==> r.error == NoSplits
    ensures r.Success? ==> Assessed(g, simpleCycles(g), r.value)
  {
    var circular := IsCircular(g);
    if circular {
      var outcome := LongestPathsInDag(g, MaxPaths);
      if outcome.EmptyMax? {
        return Failure(NoSplits);
      }
      var length := outcome.length;
      return Success(Circular(length, Classification(length), outcome.paths));
    } else {
      var reported := simpleCycles(g);
      var flagged: set<Edge> := {};
      if reported.Some? {
        flagged := CollectCycleEdges(reported.value);
      }
      return Success(NotCircular(flagged));
    }
  }

  // ---------------------------------------------------------------------------
  // Elements
  // ---------------------------------------------------------------------------

  /** The data of one Cytoscape element: a node with its layer, or an edge
      with its label and cycle flag (`caption` is the element's `label`). */
  datatype Element =
    | NodeElement(id: string, caption: string, layer: int)
    | EdgeElement(source: string, target: string, caption: string, cycle: bool)

  /** The edge label `f"{word}|i={split}"`. */
  function EdgeLabelText(l: EdgeLabel): string {
    l.word + "|i=" + NatToString(l.split)
  }

  ghost predicate IsNodeElementOf(g: Graph, x: Element) {
    x.NodeElement? && x.id in g.layer && x.caption == x.id && x.layer == g.layer[x.id]
  }

  ghost predicate IsEdgeElementOf(g: Graph, flagged: set<Edge>, x: Element) {
    && x.EdgeElement?
    && (x.source, x.target) in g.edges
    && x.caption == EdgeLabelText(g.edges[(x.source, x.target)])
    && x.cycle == ((x.source, x.target) in flagged)
  }

  /** The loops over the nodes and the edges of the graph that build the
      element list: one element per node and one per edge, an edge flagged
      exactly when it is a cycle edge. */
  method BuildElements(g: Graph, flagged: set<Edge>) returns (elements: seq<Element>)
    ensures NoDuplicates(elements)
    ensures forall x :: x in elements <==> IsNodeElementOf(g, x) || IsEdgeElementOf(g, flagged, x)
  {
    elements := [];
    var nodes := g.layer.Keys;
    while nodes != {}
      invariant nodes <= g.layer.Keys
      invariant NoDuplicates(elements)
      invariant forall x :: x in elements <==> IsNodeElementOf(g, x) && x.id !in nodes
      decreases nodes
    {
      var v :| v in nodes;
      elements := elements + [NodeElement(v, v, g.layer[v])];
      nodes := nodes - {v};
    }
    var edges := g.edges.Keys;
    while edges != {}
      invariant edges <= g.edges.Keys
      invariant NoDuplicates(elements)
      invariant forall x :: x in elements <==>
                  IsNodeElementOf(g, x) || (IsEdgeElementOf(g, flagged, x) && (x.source, x.target) !in edges)
      decreases edges
    {
      var e :| e in edges;
      var isInCycle := e in flagged;
      elements := elements + [EdgeElement(e.0, e.1, EdgeLabelText(g.edges[e]), isInCycle)];
      edges := edges - {e};
    }
  }

  // ---------------------------------------------------------------------------
  // Summary
  // ---------------------------------------------------------------------------

  /** The characters of the alphabet as one-character strings. */
  function CharStrings(alphabet: seq<char>): (r: seq<string>)
    ensures |r| == |alphabet| && forall i :: 0 <= i < |r| ==> r[i] == [alphabet[i]]
  {
    seq(|alphabet|, i requires 0 <= i < |alphabet| => [alphabet[i]])
  }

  /** `" -> ".join(p)` for each longest path. */
  function PathLines(paths: seq<seq<string>>): (r: seq<string>)
    ensures |r| == |paths| && forall i :: 0 <= i < |r| ==> r[i] == Join(paths[i], " -> ")
  {
    seq(|paths|, i requires 0 <= i < |paths| => Join(paths[i], " -> "))
  }

  // The two circularity lines, written in short pieces so that the verifier
  // can see character by character that neither holds a newline.
  const CircularLine: string := "Circularity: " + "code is " + "CIRCULAR " + "(graph is " + "acyclic)."
  const NotCircularLine: string :=
    "Circularity: " + "code is NOT " + "circular " + "(graph has a " + "directed cycle)."

  /** The lines describing the code itself. */
  function HeaderLines(m: CodeMetadata): seq<string> {
    [ "Code (set): {" + Join(m.words, ", ") + "}",
      "Alphabet: {" + Join(CharStrings(m.alphabet), ", ") + "}",
      "Number of words: " + NatToString(|m.words|),
      "Word length: " + NatToString(m.n),
      ""
    ]
  }

  /** The lines describing the verdict. */
  function VerdictLines(v: Verdict): seq<string> {
    match v
    case Circular(length, classification, paths) =>
      [ CircularLine,
        "Longest path length: " + NatToString(length),
        "Classification: " + LabelText(classification),
        "Longest path(s):"
      ] + PathLines(paths)
    case NotCircular(_) => [NotCircularLine]
  }

  function SummaryLines(m: CodeMetadata, v: Verdict): seq<string> {
    HeaderLines(m) + VerdictLines(v)
  }

  function Summary(m: CodeMetadata, v: Verdict): string {
    Join(SummaryLines(m, v), "\n")
  }

  lemma {:induction false} NatToStringDigits(n: nat)
    ensures forall c :: c in NatToString(n) ==> '0' <= c <= '9'
    decreases n
  {
    if n >= 10 {
      NatToStringDigits(n / 10);
    }
  }

  lemma JoinNewlineFree(parts: seq<string>, sep: string)
    requires '\n' !in sep && forall p :: p in parts ==> '\n' !in p
    ensures '\n' !in Join(parts, sep)
  {
    if '\n' in Join(parts, sep) {
      JoinChars(parts, sep, '\n');
    }
  }

  /** No word and no letter of the alphabet holds a newline. */
  ghost predicate NewlineFreeCode(m: CodeMetadata) {
    && (forall w :: w in m.words ==> '\n' !in w)
    && '\n' !in m.alphabet
  }

  /** No node of a listed path holds a newline. */
  ghost predicate NewlineFreeVerdict(v: Verdict) {
    v.Circular? ==> forall q, x :: q in v.paths && x in q ==> '\n' !in x
  }

  lemma HeaderTextNewlineFree()
    ensures '\n' !in "Code (set): {" && '\n' !in "}" && '\n' !in "Alphabet: {"
    ensures '\n' !in "Number of words: " && '\n' !in "Word length: "
  {
  }

  lemma HeaderLinesNewlineFree(m: CodeMetadata)
    requires NewlineFreeCode(m)
    ensures forall line :: line in HeaderLines(m) ==> '\n' !in line
  {
    JoinNewlineFree(m.words, ", ");
    forall p | p in CharStrings(m.alphabet) ensures '\n' !in p {
      var i :| 0 <= i < |m.alphabet| && CharStrings(m.alphabet)[i] == p;
      assert p == [m.alphabet[i]];
    }
    JoinNewlineFree(CharStrings(m.alphabet), ", ");
    NatToStringDigits(|m.words|);
    NatToStringDigits(m.n);
    HeaderTextNewlineFree();
    assert HeaderLines(m) == [
      "Code (set): {" + Join(m.words, ", ") + "}",
      "Alphabet: {" + Join(CharStrings(m.alphabet), ", ") + "}",
      "Number of words: " + NatToString(|m.words|),
      "Word length: " + NatToString(m.n),
      ""];
  }

  lemma PathLinesNewlineFree(paths: seq<seq<string>>)
    requires forall q, x :: q in paths && x in q ==> '\n' !in x
    ensures forall line :: line in PathLines(paths) ==> '\n' !in line
  {
    var lines := PathLines(paths);
    forall line | line in lines ensures '\n' !in line {
      var i :| 0 <= i < |lines| && lines[i] == line;
      JoinNewlineFree(paths[i], " -> ");
    }
  }

  lemma LabelTextNewlineFree(c: Label)
    ensures '\n' !in LabelText(c)
  {
  }

  lemma CircularLineNewlineFree()
    ensures '\n' !in CircularLine
  {
  }

  lemma CircularTextNewlineFree()
    ensures '\n' !in "Longest path length: " && '\n' !in "Classification: " && '\n' !in "Longest path(s):"
  {
  }

  lemma VerdictLinesNewlineFree(v: Verdict)
    requires NewlineFreeVerdict(v)
    ensures forall line :: line in VerdictLines(v) ==> '\n' !in line
  {
    if v.Circular? {
      NatToStringDigits(v.length);
      PathLinesNewlineFree(v.paths);
      CircularLineNewlineFree();
      CircularTextNewlineFree();
      var length := "Longest path length: " + NatToString(v.length);
      LabelTextNewlineFree(v.classification);
      var classification := "Classification: " + LabelText(v.classification);
      assert VerdictLines(v) == [CircularLine, length, classification, "Longest path(s):"] + PathLines(v.paths);
    }
  }

  /** Splitting the summary at its newlines gives back its lines. */
  lemma SummaryReadBack(m: CodeMetadata, v: Verdict)
    requires NewlineFreeCode(m) && NewlineFreeVerdict(v)
    ensures Split(Summary(m, v), '\n') == SummaryLines(m, v)
  {
    HeaderLinesNewlineFree(m);
    VerdictLinesNewlineFree(v);
    SplitJoin(SummaryLines(m, v), '\n');
  }

  // ---------------------------------------------------------------------------
  // analyze_code_text
  // ---------------------------------------------------------------------------

  /** The JSON object analyze_code_text returns. */
  datatype Analysis = Analysis(summary: string, elements: seq<Element>, circular: bool)

  /** Every character of a node of the split graph comes from a word. */
  lemma NodeCharsFromWords(words: seq<string>, x: string, c: char)
    requires x in Endpoints(SplitEdges(words)) && c in x
    ensures exists w :: w in words && c in w
  {
    var e :| e in SplitEdges(words) && (x == e.0 || x == e.1);
    SplitEdgeIff(words, e.0, e.1);
    assert c in e.0 + e.1;
  }

  /** The words analyze_code_text validates hold no newline: parse_words
      splits at every one. */
  lemma CodeNewlineFree(raw: string, m: CodeMetadata)
    requires VerifyUniformAndMetadata(WordsOf(raw)) == Success(m)
    ensures NewlineFreeCode(m)
  {
    WordsOfParsed(raw);
    forall w | w in m.words ensures '\n' !in w {
      assert IsParsedWord(w);
    }
  }

  /** The nodes of the split graph of newline-free words hold no newline. */
  lemma NodesNewlineFree(m: CodeMetadata, g: Graph)
    requires NewlineFreeCode(m)
    requires g == SplitGraphOf(m.words)
    ensures forall x :: x in g.layer ==> '\n' !in x
  {
    forall x | x in g.layer ensures '\n' !in x {
      if '\n' in x {
        NodeCharsFromWords(m.words, x, '\n');
      }
    }
  }

  lemma PathNodesNewlineFree(g: Graph, paths: seq<seq<string>>)
    requires forall x :: x in g.layer ==> '\n' !in x
    requires forall q :: q in paths ==> IsPath(g, q)
    ensures forall q, x :: q in paths && x in q ==> '\n' !in x
  {
    forall q, x | q in paths && x in q ensures '\n' !in x {
      var k :| 0 <= k < |q| && q[k] == x;
    }
  }

  /** A verdict on a graph whose nodes hold no newline lists no path node
      holding one. */
  lemma VerdictNewlineFree(g: Graph, v: Verdict, reported: Option<seq<seq<string>>>)
    requires forall x :: x in g.layer ==> '\n' !in x
    requires Assessed(g, reported, v)
    ensures NewlineFreeVerdict(v)
  {
    if v.Circular? {
      PathNodesNewlineFree(g, v.paths);
    }
  }

  /** `a` reports the verdict `v` on `g`: its flag, its summary (whose lines
      split back out of it) and one element per node and per edge. */
  ghost predicate DescribedBy(g: Graph, m: CodeMetadata, v: Verdict, a: Analysis) {
    && a.circular == v.Circular?
    && a.summary == Summary(m, v)
    && Split(a.summary, '\n') == SummaryLines(m, v)
    && forall x :: x in a.elements <==>
         IsNodeElementOf(g, x) || IsEdgeElementOf(g, if v.Circular? then {} else v.cycleEdges, x)
  }

  /** analyze_code_text: the validation errors of the parsed words, then the
      split graph of the distinct words; `NoSplits` exactly for words of one
      letter (a graph without nodes); otherwise the summary and elements for
      the verdict reached on the graph. */
  method AnalyzeCodeText(raw: string, simpleCycles: Graph -> Option<seq<seq<string>>>)
    returns (r: Result<Analysis, AnalysisError>)
    ensures var meta := VerifyUniformAndMetadata(WordsOf(raw));
      meta.Failure? ==> r == Failure(InvalidCode(meta.error))
    ensures var meta := VerifyUniformAndMetadata(WordsOf(raw));
      meta.Success? ==> (r.Failure? <==> meta.value.n < 2) && (r.Failure? ==> r.error == NoSplits)
    ensures var meta := VerifyUniformAndMetadata(WordsOf(raw));
      meta.Success? && r.Success? ==>
        var g := SplitGraphOf(meta.value.words);
        && (r.value.circular <==> Acyclic(g))
        && exists v :: Assessed(g, simpleCycles(g), v) && DescribedBy(g, meta.value, v, r.value)
  {
    var words := ParseWords(raw);
    var meta := VerifyUniformAndMetadata(words);
    if meta.Failure? {
      return Failure(InvalidCode(meta.error));
    }
    var m := meta.value;
    var g := BuildGraph(m.words);
    NoSplitsIffShort(m.words, m.n);
    var verdict := Assess(g, simpleCycles);
    if verdict.Failure? {
      return Failure(verdict.error);
    }
    var v := verdict.value;
    if g.layer.Keys == {} {
      EmptyGraphAcyclic(g);
    }
    var flagged := if v.Circular? then {} else v.cycleEdges;
    var elements := BuildElements(g, flagged);
    CodeNewlineFree(raw, m);
    NodesNewlineFree(m, g);
    VerdictNewlineFree(g, v, simpleCycles(g));
    SummaryReadBack(m, v);
    r := Success(Analysis(Summary(m, v), elements, v.Circular?));
    assert DescribedBy(g, m, v, r.value);
  }
}
