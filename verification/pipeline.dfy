/**
 * One host scan (`initHostScan`) end to end: resolve the paths, select the hosts, build the
 * prober's arguments, follow its progress, then run the alert scanner when a structured
 * request is present and the fingerprint merge when the index page was scanned.
 *
 * Everything the scan reads from outside comes in a `World`: the configuration files,
 * the rows the database returns for a query, the prober's output lines and how its stream
 * ended, the grep output per pattern, the analysis results and the services column.
 */
module HostScanner {

  import opened Wrappers
  import opened GoStrings
  import opened Requests
  import opened Targets
  import opened Runner
  import opened Alerts
  import opened Fingerprint

  /** The files of one scan, all under its own directory named after the scan id. */
  datatype ScanPaths = ScanPaths(rootPath: string, hostsPath: string, pathsPath: string, outPath: string)

  function PathsOf(scanID: string): (p: ScanPaths)
    ensures p.rootPath <= p.hostsPath && p.rootPath <= p.pathsPath && p.rootPath <= p.outPath
    ensures p.hostsPath != p.pathsPath && p.hostsPath != p.outPath && p.pathsPath != p.outPath
    ensures |p.outPath| > 0 && p.outPath[|p.outPath| - 1] == '/'
  {
    var root := "output/hostscanner/" + scanID + "/";
    var p := ScanPaths(root, root + "hosts.txt", root + "paths.txt", root + "megoutput/");
    assert p.hostsPath[|root|] == 'h' && p.pathsPath[|root|] == 'p' && p.outPath[|root|] == 'm';
    p
  }

  /** What the scan reads from its surroundings; `configFiles` maps the names under the configuration directory to what they are. */
  datatype World = World(
    configFiles: map<string, ConfigEntry>,
    rows: string -> seq<DomainRow>,
    proberOutput: seq<string>,
    streamEnd: StreamEnd,
    grepOutput: string -> seq<string>,
    analysis: seq<AnalysisResult>,
    services: map<string, Option<string>>)

  /** Why a scan stopped early. */
  datatype Reason =
    | MissingConfig(message: string)
    | ProgressDivByZero
    | ProberStreamError(error: string)
    | HostMissingScheme(host: string)

  /** The updates sent for the scan: the progress percentages and the alert notification. */
  datatype Sent = Sent(percents: seq<int>, notice: Option<Notice>)

  /** What a finished scan produced. */
  datatype Report = Report(
    paths: seq<string>,
    query: string,
    hostLines: seq<string>,
    args: seq<string>,
    sent: Sent,
    services: map<string, Option<string>>)

  /** A finished scan, or the reason it stopped together with the updates already sent. */
  datatype Outcome = Completed(report: Report) | Aborted(reason: Reason, sentBefore: Sent)

  /** The batch update needs distinct host names (the database would pick any of a duplicate's rows). */
  predicate DistinctBatch(results: seq<AnalysisResult>) {
    Correlate(results).Batch? ==> Distinct(Correlate(results).hosts)
  }

  /** The notification of the alert scanner, which runs only with a structured request. */
  function AlertNotice(request: Option<ScanRequest>, grepOutput: string -> seq<string>, outPath: string): Option<Notice> {
    match request
    case None => None
    case Some(r) => NoticeFor(AllAlerts(r.greps, grepOutput, outPath), r.request.uri)
  }

  /** The outcome of a scan. */
  function Scan(input: string, request: Option<ScanRequest>, scanID: string, w: World): Outcome
    requires DistinctBatch(w.analysis)
  {
    var p := PathsOf(scanID);
    match PathsFor(input, request, w.configFiles)
    case ConfigNotFound(message) => Aborted(MissingConfig(message), Sent([], None))
    case Paths(paths) =>
      var query := QueryFor(request);
      var rows := w.rows(query);
      var args := ProberArgs(request, p.pathsPath, p.hostsPath, p.outPath);
      match ProgressFor(|w.proberOutput|, |rows|)
      case DivideByZero => Aborted(ProgressDivByZero, Sent([], None))
      case Reported(percents) =>
        match AfterStream(w.streamEnd)
        case Fatal(error) => Aborted(ProberStreamError(error), Sent(percents, None))
        case Proceed =>
          var sent := Sent(percents, AlertNotice(request, w.grepOutput, p.outPath));
          if input != "/" then Completed(Report(paths, query, HostLines(rows), args, sent, w.services))
          else match Correlate(w.analysis)
            case HostWithoutScheme(host) => Aborted(HostMissingScheme(host), sent)
            case Batch(hosts, services) =>
              Completed(Report(paths, query, HostLines(rows), args, sent, MergeServices(w.services, hosts, services)))
  }

  /** The scan as the program runs it, step by step. */
  method InitHostScan(input: string, request: Option<ScanRequest>, scanID: string, w: World)
    returns (outcome: Outcome)
    requires DistinctBatch(w.analysis)
    ensures outcome == Scan(input, request, scanID, w)
  {
    var p := PathsOf(scanID);
    var resolution := ResolvePaths(input, request, w.configFiles);
    if resolution.ConfigNotFound? {
      return Aborted(MissingConfig(resolution.message), Sent([], None));
    }
    var paths := resolution.paths;
    var query := BuildQuery(request);
    var rows := w.rows(query);
    var hostLines, count := WriteHostList(rows);
    var args := BuildProberArgs(request, p.pathsPath, p.hostsPath, p.outPath);
    var progress := StreamProgress(w.proberOutput, count);
    if progress.DivideByZero? {
      return Aborted(ProgressDivByZero, Sent([], None));
    }
    var verdict := AfterStream(w.streamEnd);
    if verdict.Fatal? {
      return Aborted(ProberStreamError(verdict.error), Sent(progress.percents, None));
    }
    var notice: Option<Notice> := None;
    if request.Some? {
      var alerts;
      alerts, notice := ScanAlerts(request.value, w.grepOutput, p.outPath);
    }
    var sent := Sent(progress.percents, notice);
    var services := w.services;
    if input == "/" {
      var batch := CollectServices(w.analysis);
      if batch.HostWithoutScheme? {
        return Aborted(HostMissingScheme(batch.host), sent);
      }
      services := MergeServices(services, batch.hosts, batch.services);
    }
    outcome := Completed(Report(paths, query, hostLines, args, sent, services));
  }

  // ---------------------------------------------------------------- dispatch

  /** The updates a scan sent, whether it finished or not. */
  function SentOf(o: Outcome): Sent {
    match o
    case Completed(r) => r.sent
    case Aborted(_, s) => s
  }

  /** Without a structured request no alert notification is ever sent. */
  lemma NoAlertsWithoutRequest(input: string, scanID: string, w: World)
    requires DistinctBatch(w.analysis)
    ensures SentOf(Scan(input, None, scanID, w)).notice == None
  {
  }

  /**
   * With a structured request, a scan that gets past the prober sends one notification
   * exactly when the grep output raised at least one alert, and it lists those alerts.
   */
  lemma NoticeWithRequest(input: string, r: ScanRequest, scanID: string, w: World)
    requires DistinctBatch(w.analysis)
    ensures Scan(input, Some(r), scanID, w).Completed? ==>
      var alerts := AllAlerts(r.greps, w.grepOutput, PathsOf(scanID).outPath);
      var notice := Scan(input, Some(r), scanID, w).report.sent.notice;
      (notice.Some? <==> |alerts| > 0) && (notice.Some? ==> notice.value.body == NoticeHeading(|alerts|, r.request.uri) + Join(alerts, "\n"))
  {
  }

  /** Only a scan of the index page touches the services column, and only it can stop on a host. */
  lemma FingerprintOnlyForIndex(input: string, request: Option<ScanRequest>, scanID: string, w: World)
    requires DistinctBatch(w.analysis) && input != "/"
    ensures Scan(input, request, scanID, w).Completed? ==> Scan(input, request, scanID, w).report.services == w.services
    ensures Scan(input, request, scanID, w).Aborted? ==> !Scan(input, request, scanID, w).reason.HostMissingScheme?
  {
  }

  /**
   * A finished scan of the index page merged the batch of its analysis results: every
   * host of the batch that is in the table now holds its summary.
   */
  lemma IndexScanMerges(request: Option<ScanRequest>, scanID: string, w: World)
    requires DistinctBatch(w.analysis)
    ensures Scan("/", request, scanID, w).Completed? ==> Correlate(w.analysis).Batch?
    ensures Scan("/", request, scanID, w).Completed? ==>
      var b := Correlate(w.analysis);
      Scan("/", request, scanID, w).report.services == MergeServices(w.services, b.hosts, b.services)
      && forall k :: 0 <= k < |b.hosts| && b.hosts[k] in w.services ==>
        !NeedsUpdate(Scan("/", request, scanID, w).report.services[b.hosts[k]], b.services[k])
  {
    var b := Correlate(w.analysis);
    if b.Batch? {
      MergeHoldsSummaries(w.services, b.hosts, b.services);
    }
  }

  /** Scanning the index page again with the same analysis leaves the services column as it is. */
  lemma RescanLeavesServices(request: Option<ScanRequest>, scanID: string, w: World)
    requires DistinctBatch(w.analysis)
    ensures Scan("/", request, scanID, w).Completed? ==>
      var after := w.(services := Scan("/", request, scanID, w).report.services);
      Scan("/", request, scanID, after).Completed?
      && Scan("/", request, scanID, after).report.services == after.services
  {
    var b := Correlate(w.analysis);
    if Scan("/", request, scanID, w).Completed? {
      MergeIdempotent(w.services, b.hosts, b.services);
    }
  }

  /**
   * The scan stops on a division by zero exactly when the paths resolve, the query selects
   * no domain and the prober still prints a line.
   */
  lemma DivByZeroIff(input: string, request: Option<ScanRequest>, scanID: string, w: World)
    requires DistinctBatch(w.analysis)
    ensures Scan(input, request, scanID, w) == Aborted(ProgressDivByZero, Sent([], None)) <==>
      PathsFor(input, request, w.configFiles).Paths?
      && |w.rows(QueryFor(request))| == 0 && |w.proberOutput| > 0
  {
  }

  /**
   * A finished scan hands the prober the scan's own paths file, hosts file and output
   * directory, and writes one host line per selected row.
   */
  lemma ProberUsesScanFiles(input: string, request: Option<ScanRequest>, scanID: string, w: World)
    requires DistinctBatch(w.analysis)
    ensures Scan(input, request, scanID, w).Completed? ==>
      var r := Scan(input, request, scanID, w).report; var p := PathsOf(scanID);
      r.args[|r.args| - 3..] == [p.pathsPath, p.hostsPath, p.outPath]
      && |r.hostLines| == |w.rows(r.query)|
      && |r.sent.percents| == |w.proberOutput|
  {
  }
}
