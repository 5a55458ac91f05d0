/**
 * The alert scanner of `initHostScan`: the output of one `grep -Hri <pattern> <outPath>`
 * per pattern is filtered and parsed into alert lines, and a single notification is sent
 * when there is at least one.
 */
module Alerts {

  import opened Wrappers
  import opened GoStrings
  import opened Requests

  /** A match on the captured root-index listing, which never raises an alert. */
  const IndexMarker := "megoutput//index:"

  /** A grep line is considered only if it has a `/` and a `:` and is not the root-index listing. */
  predicate PassesFilter(text: string) {
    Contains(text, "/") && Contains(text, ":") && !Contains(text, IndexMarker)
  }

  /** The domain: the first `/`-segment once the first `outPath + "/"` is cut out. */
  function AlertDomain(text: string, outPath: string): string {
    Split(ReplaceFirst(text, outPath + "/", ""), "/")[0]
  }

  /** The excerpt: everything after the first `:` of the line. */
  function AlertExcerpt(text: string): string
    requires Contains(text, ":")
  {
    SplitOnce(text, ":")[1]
  }

  /** `fmt.Sprintf("Domain %s matched string %s: %s", domain, grep, match)`. */
  function FormatAlert(domain: string, pattern: string, excerpt: string): string {
    "Domain " + domain + " matched string " + pattern + ": " + excerpt
  }

  /** The alert one grep line raises, if any. */
  function AlertFor(text: string, pattern: string, outPath: string): Option<string> {
    if PassesFilter(text) then Some(FormatAlert(AlertDomain(text, outPath), pattern, AlertExcerpt(text)))
    else None
  }

  /** The values `f` gives for the lines, in order, skipping the lines it gives nothing for. */
  function Collect(lines: seq<string>, f: string -> Option<string>): seq<string> {
    if lines == [] then []
    else
      Collect(lines[..|lines| - 1], f)
      + (match f(lines[|lines| - 1]) case None => [] case Some(a) => [a])
  }

  /** One more line adds the value `f` gives for it, if any. */
  lemma CollectStep(lines: seq<string>, f: string -> Option<string>)
    requires lines != []
    ensures Collect(lines, f) == Collect(lines[..|lines| - 1], f)
      + (match f(lines[|lines| - 1]) case None => [] case Some(a) => [a])
  {
  }

  /** What `Collect` gives is exactly what `f` gives for some line. */
  lemma {:induction false} CollectExactly(lines: seq<string>, f: string -> Option<string>, a: string)
    ensures a in Collect(lines, f) <==> exists k :: 0 <= k < |lines| && f(lines[k]) == Some(a)
  {
    if lines != [] {
      var init := lines[..|lines| - 1];
      CollectExactly(init, f, a);
      CollectStep(lines, f);
      if a in Collect(lines, f) {
        if a in Collect(init, f) {
          var k :| 0 <= k < |init| && f(init[k]) == Some(a);
          assert lines[k] == init[k];
        } else {
          assert f(lines[|lines| - 1]) == Some(a);
        }
      }
      if exists k :: 0 <= k < |lines| && f(lines[k]) == Some(a) {
        var k :| 0 <= k < |lines| && f(lines[k]) == Some(a);
        if k < |init| {
          assert init[k] == lines[k];
        }
      }
    }
  }

  /** The alerts of one pattern's grep output, in line order. */
  function PatternAlerts(lines: seq<string>, pattern: string, outPath: string): seq<string> {
    Collect(lines, text => AlertFor(text, pattern, outPath))
  }

  /** The alerts of all patterns, pattern by pattern; `grepOutput` gives each pattern's output lines. */
  function AllAlerts(greps: seq<string>, grepOutput: string -> seq<string>, outPath: string): seq<string> {
    if greps == [] then []
    else
      var last := greps[|greps| - 1];
      AllAlerts(greps[..|greps| - 1], grepOutput, outPath) + PatternAlerts(grepOutput(last), last, outPath)
  }

  /** The notification posted as the scan's output: title, text and severity level. */
  datatype Notice = Notice(title: string, body: string, level: int)

  /** The heading line of the notification text. */
  function NoticeHeading(count: nat, uri: string): string {
    NatToString(count) + " results found for request to " + uri + ":\n"
  }

  /** One notification for all alerts, and none when there are no alerts. */
  function NoticeFor(alerts: seq<string>, uri: string): Option<Notice> {
    if |alerts| > 0 then Some(Notice("Host Scan for " + uri, NoticeHeading(|alerts|, uri) + Join(alerts, "\n"), 3))
    else None
  }

  /** The loops over the patterns and over each pattern's grep output, then the notification. */
  method ScanAlerts(request: ScanRequest, grepOutput: string -> seq<string>, outPath: string)
    returns (alerts: seq<string>, notice: Option<Notice>)
    ensures alerts == AllAlerts(request.greps, grepOutput, outPath)
    ensures notice == NoticeFor(alerts, request.request.uri)
    ensures notice.Some? <==> |alerts| > 0
  {
    var greps := request.greps;
    alerts := [];
    var g := 0;
    while g < |greps|
      invariant 0 <= g <= |greps|
      invariant alerts == AllAlerts(greps[..g], grepOutput, outPath)
    {
      var pattern := greps[g];
      assert greps[..g + 1][..g] == greps[..g];
      var lines := grepOutput(pattern);
      ghost var before := alerts;
      ghost var found: seq<string> := [];
      var n := 0;
      while n < |lines|
        invariant 0 <= n <= |lines|
        invariant found == PatternAlerts(lines[..n], pattern, outPath)
        invariant alerts == before + found
      {
        var text := lines[n];
        PatternAlertsStep(lines, n, pattern, outPath);
        n := n + 1;
        if !PassesFilter(text) {
          continue;
        }
        var domain := AlertDomain(text, outPath);
        var excerpt := AlertExcerpt(text);
        alerts := alerts + [FormatAlert(domain, pattern, excerpt)];
        AppendAssoc(before, found, [FormatAlert(domain, pattern, excerpt)]);
        found := found + [FormatAlert(domain, pattern, excerpt)];
      }
      assert lines[..|lines|] == lines;
      g := g + 1;
    }
    assert greps[..|greps|] == greps;
    if |alerts| > 0 {
      var heading := NatToString(|alerts|) + " results found for request to " + request.request.uri + ":\n";
      notice := Some(Notice("Host Scan for " + request.request.uri, heading + Join(alerts, "\n"), 3));
    } else {
      notice := None;
    }
  }

  /** One more grep line adds its alert, if it raises one. */
  lemma PatternAlertsStep(lines: seq<string>, n: nat, pattern: string, outPath: string)
    requires n < |lines|
    ensures PatternAlerts(lines[..n + 1], pattern, outPath)
      == PatternAlerts(lines[..n], pattern, outPath)
         + (if PassesFilter(lines[n]) then [FormatAlert(AlertDomain(lines[n], outPath), pattern, AlertExcerpt(lines[n]))] else [])
  {
    assert lines[..n + 1][..n] == lines[..n];
  }

  /**
   * A pattern's alerts are exactly the alerts of its grep lines that pass the filter: no
   * other alert appears, and none of them is lost.
   */
  lemma PatternAlertsExactly(lines: seq<string>, pattern: string, outPath: string, a: string)
    ensures a in PatternAlerts(lines, pattern, outPath) <==>
      exists k :: 0 <= k < |lines| && AlertFor(lines[k], pattern, outPath) == Some(a)
  {
    CollectExactly(lines, text => AlertFor(text, pattern, outPath), a);
  }

  /** A line without `/`, without `:`, or matching the root-index listing never raises an alert. */
  lemma RejectedLinesRaiseNothing(lines: seq<string>, pattern: string, outPath: string)
    requires forall k :: 0 <= k < |lines| ==> !PassesFilter(lines[k])
    ensures PatternAlerts(lines, pattern, outPath) == []
  {
    if PatternAlerts(lines, pattern, outPath) != [] {
      var a := PatternAlerts(lines, pattern, outPath)[0];
      PatternAlertsExactly(lines, pattern, outPath, a);
    }
  }

  /** The name grep prints for a file captured for `domain` under the prober's output directory. */
  function CapturedFile(outPath: string, domain: string, path: string): string {
    outPath + "/" + domain + "/" + path
  }

  /**
   * A grep line `file:text` for a file captured for `domain` raises the alert for that
   * domain and text. (The output directory already ends in `/`, and grep prints the file
   * name after it, hence the `outPath + "/"` that the domain parse cuts out.)
   */
  lemma GrepLineAlert(outPath: string, domain: string, path: string, matched: string, pattern: string)
    requires ':' !in outPath && ':' !in domain && ':' !in path
    requires '/' !in domain
    requires !Contains(CapturedFile(outPath, domain, path) + ":" + matched, IndexMarker)
    ensures AlertFor(CapturedFile(outPath, domain, path) + ":" + matched, pattern, outPath)
      == Some(FormatAlert(domain, pattern, matched))
  {
    var file := CapturedFile(outPath, domain, path);
    var line := file + ":" + matched;
    assert line[|outPath|] == '/';
    ContainsChar(line, '/');
    GrepLineExcerpt(file, matched);
    GrepLineDomain(outPath, domain, path, matched);
  }

  /** Cutting out `outPath + "/"` leaves the domain as the first `/`-segment. */
  lemma GrepLineDomain(outPath: string, domain: string, path: string, matched: string)
    requires '/' !in domain
    ensures AlertDomain(CapturedFile(outPath, domain, path) + ":" + matched, outPath) == domain
  {
    var pat := outPath + "/";
    var line := CapturedFile(outPath, domain, path) + ":" + matched;
    assert pat <= line;
    var after := line[|pat|..];
    assert ReplaceFirst(line, pat, "") == after by {
      assert "" + after == after;
    }
    assert after[|domain|] == '/';
    assert forall j :: 0 <= j < |domain| ==> after[j] == domain[j];
    SplitFirstPieceAt(after, '/', |domain|);
    assert after[..|domain|] == domain;
    assert "/" == ['/'];
  }

  /** The excerpt of `file:text` is `text` when the file name has no `:`. */
  lemma GrepLineExcerpt(file: string, matched: string)
    requires ':' !in file
    ensures Contains(file + ":" + matched, ":")
    ensures AlertExcerpt(file + ":" + matched) == matched
  {
    IndexOfChar(file, ':', matched);
    var line := file + ":" + matched;
    assert line[|file| + 1..] == matched;
  }

  /**
   * The notification's text is its heading followed by the alerts one per line: the
   * heading starts with the number of alerts in decimal, and the remaining lines are
   * exactly the alerts (when no alert holds a newline).
   */
  lemma NoticeCountsAlerts(alerts: seq<string>, uri: string)
    requires |alerts| > 0
    requires forall k :: 0 <= k < |alerts| ==> '\n' !in alerts[k]
    ensures NoticeFor(alerts, uri) == Some(Notice("Host Scan for " + uri, NoticeHeading(|alerts|, uri) + Join(alerts, "\n"), 3))
    ensures NatToString(|alerts|) <= NoticeHeading(|alerts|, uri)
    ensures DigitsValue(NatToString(|alerts|)) == |alerts|
    ensures Split(Join(alerts, "\n"), "\n") == alerts
  {
    NatToStringRoundTrip(|alerts|);
    SplitJoin(alerts, "\n");
    assert "\n" == ['\n'];
  }
}
