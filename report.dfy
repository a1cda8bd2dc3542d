/**
 * The Markdown report of the front end (generateAndDownloadReport, present
 * identically in static/main.js and static/report.js) and the image pass
 * that runs before it (generateGraphImages).
 *
 * A result is the JSON object the server answers with; every field may be
 * missing. JavaScript truthiness of a string is modelled by `Truthy`: a
 * missing or empty string is false. The date is a parameter, and the image
 * renderer (a Cytoscape snapshot) is a function from the elements to the
 * image data, `None` when rendering throws.
 */
module Report {
  import opened Wrappers
  import opened Strings
  import Analysis

  /** A JSON object answered by the server: one analysis result, or (for a
      file) the list of results under `results`. */
  datatype Payload = Payload(
    ok: bool,
    error: Option<string>,
    summary: Option<string>,
    elements: Option<seq<Analysis.Element>>,
    graphImage: Option<string>,
    results: Option<seq<Payload>>)

  /** The truthiness of an optional string. */
  predicate Truthy(s: Option<string>) {
    s.Some? && s.value != ""
  }

  /** `s || fallback` on an optional string. */
  function OrElse(s: Option<string>, fallback: string): string {
    if Truthy(s) then s.value else fallback
  }

  predicate StartsWith(s: string, prefix: string) {
    |prefix| <= |s| && s[..|prefix|] == prefix
  }

  predicate EndsWith(s: string, suffix: string) {
    |suffix| <= |s| && s[|s| - |suffix|..] == suffix
  }

  // ---------------------------------------------------------------------------
  // The document
  // ---------------------------------------------------------------------------

  const Title: string := "# Circular Code Analysis Report\n\n"

  /** The pieces of the header, in the order they are appended: the title,
      the date, the source (or "Unknown Source") and the number of results. */
  function HeaderPieces(date: string, sourceName: string, count: nat): seq<string> {
    [ Title,
      "**Date:** " + date + "\n",
      "**Source:** " + (if sourceName != "" then sourceName else "Unknown Source") + "\n\n",
      "This document summarizes the analysis of " + NatToString(count) + " code block(s).\n\n"
    ]
  }

  function Header(date: string, sourceName: string, count: nat): string {
    Concat(HeaderPieces(date, sourceName, count))
  }

  /** The heading of the `idx`-th (0-based) of `count` results. */
  function Label(count: nat, idx: nat): string {
    if count > 1 then "Code Block " + NatToString(idx + 1) else "Analysis Result"
  }

  function Heading(name: string): string {
    "## " + name + "\n\n"
  }

  const OpeningFence: string := "```text\n"
  const ClosingFence: string := "```\n\n"

  function ImageReference(name: string, image: string): string {
    "![Graph for " + name + "](" + image + ")\n\n"
  }

  /** The pieces of the section of one result, in the order they are
      appended: the heading, the error line when the error is truthy, the
      fenced summary, and the image when it is truthy. */
  function SectionPieces(name: string, res: Payload): seq<string> {
    [Heading(name)]
    + (if Truthy(res.error) then ["**Error:** " + res.error.value + "\n\n"] else [])
    + [OpeningFence, OrElse(res.summary, "") + "\n", ClosingFence]
    + (if Truthy(res.graphImage) then ["### Graph\n\n", ImageReference(name, res.graphImage.value)] else [])
  }

  function Section(name: string, res: Payload): string {
    Concat(SectionPieces(name, res))
  }

  /** One section per result, in the order of the results. */
  function Sections(results: seq<Payload>): (r: seq<string>)
    ensures |r| == |results|
    ensures forall i :: 0 <= i < |r| ==> r[i] == Section(Label(|results|, i), results[i])
  {
    seq(|results|, i requires 0 <= i < |results| => Section(Label(|results|, i), results[i]))
  }

  /** The document for `results`, none when they are missing or empty. */
  function ReportText(results: Option<seq<Payload>>, sourceName: string, date: string): (r: Option<string>)
    ensures r.None? <==> results.None? || |results.value| == 0
  {
    if results.None? || |results.value| == 0 then None
    else Some(Header(date, sourceName, |results.value|) + Concat(Sections(results.value)))
  }

  lemma ConcatAppend(pieces: seq<string>, more: seq<string>)
    ensures Concat(pieces + more) == Concat(pieces) + Concat(more)
    decreases |more|
  {
    if |more| > 0 {
      var init, last := more[..|more| - 1], more[|more| - 1];
      assert (pieces + more)[..|pieces + more| - 1] == pieces + init;
      assert (pieces + more)[|pieces + more| - 1] == last;
      ConcatAppend(pieces, init);
      assert Concat(more) == Concat(init) + last;
    } else {
      assert pieces + more == pieces;
    }
  }

  lemma AppendPiece(md: string, pieces: seq<string>, piece: string)
    ensures md + Concat(pieces + [piece]) == md + Concat(pieces) + piece
  {
    assert (pieces + [piece])[..|pieces|] == pieces;
  }

  /** `md += piece`, where `md` holds `start` followed by the pieces
      appended so far. */
  method Append(ghost start: string, ghost done: seq<string>, md: string, piece: string) returns (md': string)
    requires md == start + Concat(done)
    ensures md' == md + piece
    ensures md' == start + Concat(done + [piece])
  {
    AppendPiece(start, done, piece);
    md' := md + piece;
  }

  /** The header appended piece by piece to an empty document. */
  method AppendHeader(date: string, sourceName: string, count: nat) returns (md: string)
    ensures md == Header(date, sourceName, count)
  {
    var source := if sourceName != "" then sourceName else "Unknown Source";
    var dateLine := "**Date:** " + date + "\n";
    var sourceLine := "**Source:** " + source + "\n\n";
    var countLine := "This document summarizes the analysis of " + NatToString(count) + " code block(s).\n\n";
    md := Append("", [], "", Title);
    ghost var done := [Title];
    md := Append("", done, md, dateLine);
    done := done + [dateLine];
    md := Append("", done, md, sourceLine);
    done := done + [sourceLine];
    md := Append("", done, md, countLine);
    done := done + [countLine];
    assert done == HeaderPieces(date, sourceName, count);
  }

  /** The body of the loop over the results: the pieces of one section
      appended one after the other. */
  method AppendSection(md: string, name: string, res: Payload) returns (md': string)
    ensures md' == md + Section(name, res)
  {
    md' := Append(md, [], md, Heading(name));
    ghost var done := [Heading(name)];
    if Truthy(res.error) {
      var line := "**Error:** " + res.error.value + "\n\n";
      md' := Append(md, done, md', line);
      done := done + [line];
    }
    md' := Append(md, done, md', OpeningFence);
    done := done + [OpeningFence];
    md' := Append(md, done, md', OrElse(res.summary, "") + "\n");
    done := done + [OrElse(res.summary, "") + "\n"];
    md' := Append(md, done, md', ClosingFence);
    done := done + [ClosingFence];
    if Truthy(res.graphImage) {
      md' := Append(md, done, md', "### Graph\n\n");
      done := done + ["### Graph\n\n"];
      md' := Append(md, done, md', ImageReference(name, res.graphImage.value));
      done := done + [ImageReference(name, res.graphImage.value)];
    }
    assert done == SectionPieces(name, res);
  }

  /** generateAndDownloadReport: the header, then the sections appended one
      result at a time. The download itself is not modelled. */
  method GenerateReport(results: Option<seq<Payload>>, sourceName: string, date: string) returns (md: Option<string>)
    ensures md == ReportText(results, sourceName, date)
  {
    if results.None? || |results.value| == 0 {
      return None;
    }
    var rs := results.value;
    var doc := AppendHeader(date, sourceName, |rs|);
    ghost var header := doc;
    for idx := 0 to |rs|
      invariant doc == header + Concat(Sections(rs)[..idx])
    {
      var name := Label(|rs|, idx);
      doc := AppendSection(doc, name, rs[idx]);
      assert Sections(rs)[..idx + 1] == Sections(rs)[..idx] + [Sections(rs)[idx]];
      AppendPiece(header, Sections(rs)[..idx], Sections(rs)[idx]);
    }
    assert Sections(rs)[..|rs|] == Sections(rs);
    return Some(doc);
  }

  // ---------------------------------------------------------------------------
  // Properties of the document
  // ---------------------------------------------------------------------------

  /** With several results, no two sections share a heading. */
  lemma LabelsDistinct(count: nat, i: nat, j: nat)
    requires i < count && j < count && i != j
    ensures Label(count, i) != Label(count, j)
  {
    var prefix := "Code Block ";
    var a, b := NatToString(i + 1), NatToString(j + 1);
    if prefix + a == prefix + b {
      assert a == (prefix + a)[|prefix|..];
      assert b == (prefix + b)[|prefix|..];
      NatToStringInjective(i + 1, j + 1);
    }
  }

  /** The document opens with the title. */
  lemma ReportStartsWithTitle(results: Option<seq<Payload>>, sourceName: string, date: string)
    requires results.Some? && |results.value| > 0
    ensures StartsWith(ReportText(results, sourceName, date).value, Title)
  {
    var header := Header(date, sourceName, |results.value|);
    ConcatFirst(HeaderPieces(date, sourceName, |results.value|));
    var doc := header + Concat(Sections(results.value));
    assert doc[..|Title|] == header[..|Title|];
  }

  /** A section is its first piece followed by the rest. */
  lemma SectionFront(name: string, res: Payload)
    ensures Section(name, res) == Heading(name) + Concat(SectionPieces(name, res)[1..])
  {
    var pieces := SectionPieces(name, res);
    ConcatAppend([pieces[0]], pieces[1..]);
    assert [pieces[0]] + pieces[1..] == pieces;
    assert Concat([pieces[0]]) == pieces[0] by {
      assert [pieces[0]][..0] == [];
    }
  }

  /** A concatenation starts with its first piece. */
  lemma ConcatFirst(pieces: seq<string>)
    requires |pieces| > 0
    ensures StartsWith(Concat(pieces), pieces[0])
  {
    ConcatAppend([pieces[0]], pieces[1..]);
    assert [pieces[0]] + pieces[1..] == pieces;
    assert Concat([pieces[0]]) == pieces[0] by {
      assert [pieces[0]][..0] == [];
    }
  }

  /** A section opens with its heading; the error line follows the heading
      exactly when the result's error is truthy. */
  lemma ErrorLineIff(name: string, res: Payload)
    ensures StartsWith(Section(name, res), Heading(name))
    ensures StartsWith(Section(name, res)[|Heading(name)|..], "**Error:** ") <==> Truthy(res.error)
  {
    SectionFront(name, res);
    var s := Section(name, res);
    var tail := SectionPieces(name, res)[1..];
    var rest := Concat(tail);
    assert s[..|Heading(name)|] == Heading(name);
    assert s[|Heading(name)|..] == rest;
    ConcatFirst(tail);
    if Truthy(res.error) {
      var line := "**Error:** " + res.error.value + "\n\n";
      assert tail[0] == line;
      assert line[..|"**Error:** "|] == "**Error:** ";
      assert rest[..|"**Error:** "|] == line[..|"**Error:** "|];
    } else {
      assert tail[0] == OpeningFence;
      assert rest[0] == OpeningFence[0] == '`';
    }
  }

  /** A section ends with the image reference exactly when the result has a
      truthy image; otherwise it ends with the closing fence. */
  lemma ImageIff(name: string, res: Payload)
    ensures Truthy(res.graphImage) ==> EndsWith(Section(name, res), ImageReference(name, res.graphImage.value))
    ensures EndsWith(Section(name, res), ClosingFence) <==> !Truthy(res.graphImage)
  {
    var pieces := SectionPieces(name, res);
    var s := Section(name, res);
    var last := pieces[|pieces| - 1];
    assert s == Concat(pieces[..|pieces| - 1]) + last;
    assert s[|s| - |last|..] == last;
    if Truthy(res.graphImage) {
      var reference := ImageReference(name, res.graphImage.value);
      assert last == reference;
      assert reference[|reference| - 3] == ')';
      assert s[|s| - 3] == ')';
      assert ClosingFence[|ClosingFence| - 3] == '`';
    } else {
      assert last == ClosingFence;
    }
  }

  // ---------------------------------------------------------------------------
  // Images
  // ---------------------------------------------------------------------------

  /** generateGraphImages leaves out results with an error and results
      without elements. */
  predicate Skipped(res: Payload) {
    Truthy(res.error) || res.elements.None? || |res.elements.value| == 0
  }

  /** `after` is `before` once the image pass went over it: unchanged when
      skipped, otherwise carrying the rendered image. */
  predicate Imaged(before: Payload, after: Payload, render: seq<Analysis.Element> -> Option<string>) {
    if Skipped(before) then after == before
    else render(before.elements.value).Some? && after == before.(graphImage := render(before.elements.value))
  }

  /** generateGraphImages: render each result that is not skipped, in order,
      and store its image; a rendering that throws ends the pass, the
      results before it keeping their new images and the rest unchanged. */
  method GenerateGraphImages(results: seq<Payload>, render: seq<Analysis.Element> -> Option<string>)
    returns (updated: seq<Payload>, failedAt: Option<nat>)
    ensures |updated| == |results|
    ensures var stop := if failedAt.Some? then failedAt.value else |results|;
      && stop <= |results|
      && (forall i :: 0 <= i < stop ==> Imaged(results[i], updated[i], render))
      && updated[stop..] == results[stop..]
    ensures failedAt.Some? ==>
      failedAt.value < |results| && !Skipped(results[failedAt.value]) && render(results[failedAt.value].elements.value).None?
    ensures failedAt.None? <==>
              forall i :: 0 <= i < |results| && !Skipped(results[i]) ==> render(results[i].elements.value).Some?
  {
    updated := results;
    for i := 0 to |results|
      invariant |updated| == |results|
      invariant forall j :: 0 <= j < i ==> Imaged(results[j], updated[j], render)
      invariant updated[i..] == results[i..]
    {
      var res := results[i];
      if Skipped(res) {
        continue;
      }
      var png := render(res.elements.value);
      if png.None? {
        return updated, Some(i);
      }
      updated := updated[i := res.(graphImage := png)];
    }
    failedAt := None;
  }
}
