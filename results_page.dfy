/**
 * The state of the results page (static/main.js): the list of results, the
 * position of the one on display and the name of their source, with what
 * the page shows of them (the summary text, the drawn elements, the
 * navigation bar and the report button).
 *
 * A server reply is a parameter: `Failure(text)` when the request or the
 * JSON decoding throws (`text` being what the page prints after "ERROR: "),
 * `Success(data)` with the decoded object otherwise.
 */
module ResultsPage {
  import opened Wrappers
  import opened Strings
  import opened Report
  import Analysis

  /** What updateNavigation shows: nothing with at most one result, else
      the position and which of the two buttons are disabled. */
  datatype NavigationView = Hidden | Shown(position: string, prevDisabled: bool, nextDisabled: bool)

  function Navigation(count: nat, index: nat): (v: NavigationView)
    ensures v.Shown? <==> count > 1
    ensures v.Shown? ==> (v.prevDisabled <==> index == 0) && (v.nextDisabled <==> index + 1 == count)
  {
    if count > 1 then
      Shown("Code " + NatToString(index + 1) + " of " + NatToString(count), index == 0, index + 1 == count)
    else Hidden
  }

  /** The index showResult leaves: the requested one when it is in range,
      the current one otherwise. */
  function Moved(count: nat, index: nat, target: int): (r: nat)
    ensures 0 <= target < count ==> r == target
    ensures !(0 <= target < count) ==> r == index
  {
    if 0 <= target < count then target else index
  }

  /** With several results, a disabled navigation button is exactly one
      whose move would be refused. */
  lemma DisabledIffRefused(count: nat, index: nat)
    requires count > 1 && index < count
    ensures Navigation(count, index).prevDisabled <==> Moved(count, index, index - 1) == index
    ensures Navigation(count, index).nextDisabled <==> Moved(count, index, index + 1) == index
  {
  }

  /** Going forward and then back returns to the same result. */
  lemma NextThenPrev(count: nat, index: nat)
    requires index < count && !Navigation(count, index).Hidden? && !Navigation(count, index).nextDisabled
    ensures var j := Moved(count, index, index + 1); Moved(count, j, j - 1) == index
  {
  }

  /** The text of the error a failed request shows. */
  function ErrorText(data: Payload): string {
    "ERROR: " + OrElse(data.error, "Unknown error")
  }

  /** What applyResult leaves drawn for `data`: nothing for a result with
      an error, its elements (none when missing) otherwise. */
  function Drawn(data: Payload): (r: seq<Analysis.Element>)
    ensures Truthy(data.error) ==> r == []
    ensures !Truthy(data.error) && data.elements.Some? ==> r == data.elements.value
    ensures data.elements.None? ==> r == []
  {
    if Truthy(data.error) then [] else if data.elements.Some? then data.elements.value else []
  }

  class ResultPage {
    var results: seq<Payload>
    var index: nat
    var source: string
    /** The summary panel's text and the elements drawn in the graph. */
    var summaryText: string
    var graph: seq<Analysis.Element>
    /** The navigation bar and its parts. */
    var navHidden: bool
    var position: string
    var prevDisabled: bool
    var nextDisabled: bool
    var reportHidden: bool

    /** The index points at a result whenever there is one. */
    ghost predicate Valid()
      reads this
    {
      index < |results| || index == 0
    }

    /** The summary panel and the graph show `data`. */
    ghost predicate Shows(data: Payload)
      reads this
    {
      summaryText == OrElse(data.summary, "—") && graph == Drawn(data)
    }

    /** The navigation bar is as `view` says; when hidden, its parts keep
        the position and disabled states they had. */
    ghost predicate ShowsNavigation(view: NavigationView, position0: string, prev0: bool, next0: bool)
      reads this
    {
      if view.Shown? then
        && !navHidden && position == view.position
        && prevDisabled == view.prevDisabled && nextDisabled == view.nextDisabled
      else
        navHidden && position == position0 && prevDisabled == prev0 && nextDisabled == next0
    }

    /** The page as loaded: no results, the first position, no source. */
    constructor ()
      ensures Valid()
      ensures results == [] && index == 0 && source == ""
      ensures navHidden && reportHidden && graph == []
    {
      results := [];
      index := 0;
      source := "";
      summaryText := "";
      graph := [];
      navHidden := true;
      position := "";
      prevDisabled := false;
      nextDisabled := false;
      reportHidden := true;
    }

    /** applyResult: the summary (or a dash), and the elements unless the
        result carries an error, which clears the graph. */
    method ApplyResult(data: Payload)
      modifies this
      ensures Shows(data)
      ensures results == old(results) && index == old(index) && source == old(source)
      ensures navHidden == old(navHidden) && position == old(position)
      ensures prevDisabled == old(prevDisabled) && nextDisabled == old(nextDisabled)
      ensures reportHidden == old(reportHidden)
    {
      summaryText := OrElse(data.summary, "—");
      if Truthy(data.error) {
        graph := [];
        return;
      }
      graph := if data.elements.Some? then data.elements.value else [];
    }

    /** updateNavigation: the bar is shown exactly for several results;
        hiding it leaves its parts as they were. */
    method UpdateNavigation()
      modifies this
      ensures ShowsNavigation(Navigation(|results|, index), old(position), old(prevDisabled), old(nextDisabled))
      ensures results == old(results) && index == old(index) && source == old(source)
      ensures summaryText == old(summaryText) && graph == old(graph) && reportHidden == old(reportHidden)
    {
      if |results| > 1 {
        navHidden := false;
        position := "Code " + NatToString(index + 1) + " of " + NatToString(|results|);
        prevDisabled := index == 0;
        nextDisabled := index == |results| - 1;
      } else {
        navHidden := true;
      }
    }

    /** showResult: a target outside the results changes nothing; any other
        becomes the current result, displayed with its navigation. */
    method ShowResult(target: int)
      requires Valid()
      modifies this
      ensures Valid()
      ensures results == old(results) && source == old(source) && reportHidden == old(reportHidden)
      ensures index == Moved(|results|, old(index), target)
      ensures !(0 <= target < |results|) ==> unchanged(this)
      ensures 0 <= target < |results| ==>
        && Shows(results[target])
        && ShowsNavigation(Navigation(|results|, target), old(position), old(prevDisabled), old(nextDisabled))
    {
      if target < 0 || target >= |results| {
        return;
      }
      index := target;
      ApplyResult(results[target]);
      UpdateNavigation();
    }

    /** The previous button. */
    method Prev()
      requires Valid()
      modifies this
      ensures Valid()
      ensures results == old(results) && source == old(source) && reportHidden == old(reportHidden)
      ensures index == Moved(|results|, old(index), old(index) - 1)
      ensures old(index) == 0 ==> unchanged(this)
      ensures old(index) > 0 ==>
        && Shows(results[index])
        && ShowsNavigation(Navigation(|results|, index), old(position), old(prevDisabled), old(nextDisabled))
    {
      ShowResult(index - 1);
    }

    /** The next button. */
    method Next()
      requires Valid()
      modifies this
      ensures Valid()
      ensures results == old(results) && source == old(source) && reportHidden == old(reportHidden)
      ensures index == Moved(|results|, old(index), old(index) + 1)
      ensures old(index) + 1 >= |results| ==> unchanged(this)
      ensures old(index) + 1 < |results| ==>
        && Shows(results[index])
        && ShowsNavigation(Navigation(|results|, index), old(position), old(prevDisabled), old(nextDisabled))
    {
      ShowResult(index + 1);
    }

    /** analyze: a failed request shows its error and hides the report
        button, the results and the graph staying as they were; a successful
        one makes the answer the only result, from "Manual Input", and shows
        it. */
    method Analyze(reply: Result<Payload, string>)
      requires Valid()
      modifies this
      ensures Valid()
      ensures position == old(position) && prevDisabled == old(prevDisabled) && nextDisabled == old(nextDisabled)
      ensures navHidden
      ensures reply.Failure? ==> summaryText == "ERROR: " + reply.error
      ensures reply.Success? && !reply.value.ok ==> summaryText == ErrorText(reply.value)
      ensures (reply.Failure? || !reply.value.ok) ==>
        && results == old(results) && index == old(index) && source == old(source)
        && graph == old(graph) && reportHidden
      ensures reply.Success? && reply.value.ok ==>
        && results == [reply.value] && index == 0 && source == "Manual Input"
        && Shows(reply.value) && !reportHidden
    {
      navHidden := true;
      summaryText := "Processing…";
      if reply.Failure? {
        summaryText := "ERROR: " + reply.error;
        reportHidden := true;
        return;
      }
      var data := reply.value;
      if !data.ok {
        summaryText := ErrorText(data);
        reportHidden := true;
        return;
      }
      results := [data];
      index := 0;
      source := "Manual Input";
      ShowResult(0);
      reportHidden := false;
    }

    /** analyzeFileUpload: as analyze, except that the results are the
        answer's list when it has one (the answer itself otherwise), the
        source is the file's name, and an empty list shows "No valid codes
        found." with the report button hidden. */
    method AnalyzeFileUpload(fileName: string, reply: Result<Payload, string>)
      requires Valid()
      modifies this
      ensures Valid()
      ensures reply.Failure? ==> summaryText == "ERROR: " + reply.error
      ensures reply.Success? && !reply.value.ok ==> summaryText == ErrorText(reply.value)
      ensures (reply.Failure? || !reply.value.ok) ==>
        && results == old(results) && index == old(index) && source == old(source)
        && graph == old(graph) && reportHidden && navHidden
        && position == old(position) && prevDisabled == old(prevDisabled) && nextDisabled == old(nextDisabled)
      ensures reply.Success? && reply.value.ok ==>
        && results == (if reply.value.results.Some? then reply.value.results.value else [reply.value])
        && index == 0 && source == fileName
        && (|results| == 0 <==> reportHidden)
      ensures reply.Success? && reply.value.ok && |results| == 0 ==>
        && summaryText == "No valid codes found." && graph == old(graph) && navHidden
        && position == old(position) && prevDisabled == old(prevDisabled) && nextDisabled == old(nextDisabled)
      ensures reply.Success? && reply.value.ok && |results| > 0 ==>
        && Shows(results[0])
        && ShowsNavigation(Navigation(|results|, 0), old(position), old(prevDisabled), old(nextDisabled))
    {
      navHidden := true;
      summaryText := "Processing file…";
      if reply.Failure? {
        summaryText := "ERROR: " + reply.error;
        reportHidden := true;
        return;
      }
      var data := reply.value;
      if !data.ok {
        summaryText := ErrorText(data);
        reportHidden := true;
        return;
      }
      if data.results.Some? {
        results := data.results.value;
      } else {
        results := [data];
      }
      index := 0;
      source := fileName;
      if |results| == 0 {
        summaryText := "No valid codes found.";
        reportHidden := true;
      } else {
        ShowResult(0);
        reportHidden := false;
      }
    }

    /** The report button: nothing without results; otherwise the image
        pass, whose new images stay in the results even when it fails part
        way, and then the report of those results, which is produced
        whether or not the pass failed. */
    method DownloadReport(date: string, render: seq<Analysis.Element> -> Option<string>)
      returns (report: Option<string>, failedAt: Option<nat>)
      requires Valid()
      modifies this
      ensures Valid()
      ensures report.Some? <==> |old(results)| > 0
      ensures report.Some? ==> report == ReportText(Some(results), source, date)
      ensures |results| == |old(results)| && index == old(index) && source == old(source)
      ensures summaryText == old(summaryText) && graph == old(graph) && reportHidden == old(reportHidden)
      ensures navHidden == old(navHidden) && position == old(position)
      ensures prevDisabled == old(prevDisabled) && nextDisabled == old(nextDisabled)
      ensures var stop := if failedAt.Some? then failedAt.value else |results|;
        && stop <= |results|
        && (forall i :: 0 <= i < stop ==> Imaged(old(results)[i], results[i], render))
        && results[stop..] == old(results)[stop..]
      ensures failedAt.Some? ==>
        && failedAt.value < |old(results)| && !Skipped(old(results)[failedAt.value])
        && render(old(results)[failedAt.value].elements.value).None?
      ensures failedAt.None? <==>
        forall i :: 0 <= i < |old(results)| && !Skipped(old(results)[i]) ==> render(old(results)[i].elements.value).Some?
    {
      if |results| == 0 {
        return None, None;
      }
      var updated;
      updated, failedAt := GenerateGraphImages(results, render);
      results := updated;
      report := GenerateReport(Some(results), source, date);
    }
  }
}
