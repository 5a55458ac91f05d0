/**
 * The fingerprint step of `wappalyzeResults`: the analysis result of every host on the
 * captured index listing becomes a host name and a `Name[ Version]` summary, and the
 * summaries are merged into the services column of the domain table by one guarded
 * batch update.
 */
module Fingerprint {

  import opened Wrappers
  import opened GoStrings

  // ---------------------------------------------------------------- analysis results

  /** One application recognised on a host, with its version when one was found. */
  datatype AppMatch = AppMatch(appName: string, version: string)

  /** The analysis of one host: whether it failed, and what it recognised. */
  datatype AnalysisResult = AnalysisResult(host: string, failed: bool, matches: seq<AppMatch>)

  /** A result is used only when the analysis succeeded and recognised something. */
  predicate Correlatable(r: AnalysisResult) {
    !r.failed && |r.matches| > 0
  }

  /**
   * The host name: the text between the first and the second `//` of the host (the end
   * of the host when there is no second one), with every `/` removed. Without any `//`
   * there is no second piece to read and the scan aborts.
   */
  function HostName(host: string): (r: Option<string>)
    ensures r.Some? <==> Contains(host, "//")
    ensures r.Some? ==> '/' !in r.value
  {
    var parts := Split(host, "//");
    if |parts| >= 2 then Some(RemoveAll(parts[1], '/')) else None
  }

  /** After a scheme without `/`, the host name is the first `//`-piece of the rest, without `/`. */
  lemma HostNameAfterScheme(scheme: string, tail: string)
    requires '/' !in scheme
    ensures HostName(scheme + "//" + tail) == Some(RemoveAll(Split(tail, "//")[0], '/'))
  {
    var host := scheme + "//" + tail;
    IndexOfSep(scheme, "//", tail);
    SplitFound(host, "//", |scheme|);
    assert host[|scheme| + 2..] == tail;
  }

  /** The host name of a `scheme//name/` address is `name`. */
  lemma HostNameOfAddress(scheme: string, name: string)
    requires '/' !in scheme && '/' !in name
    ensures HostName(scheme + "//" + name + "/") == Some(name)
  {
    var tail := name + "/";
    assert scheme + "//" + name + "/" == scheme + "//" + tail;
    HostNameAfterScheme(scheme, tail);
    TrailingSlashOnly(name);
    assert Split(tail, "//")[0] == tail;
    RemoveAllAppend(name, "/", '/');
    assert RemoveAll("/", '/') == [] by {
      assert "/"[1..] == [];
    }
    assert RemoveAll(name, '/') == name;
    assert RemoveAll(tail, '/') == name;
  }

  /** A name without `/` followed by one `/` holds no `//`. */
  lemma TrailingSlashOnly(name: string)
    requires '/' !in name
    ensures Split(name + "/", "//") == [name + "/"]
  {
    var tail := name + "/";
    forall j: nat | j + 2 <= |tail|
      ensures !OccursAt(tail, "//", j)
    {
      assert tail[j..j + 2][0] == tail[j] == name[j];
    }
    assert !Contains(tail, "//");
  }

  /**
   * Only the segment between the first two `//` is kept: whatever follows a second `//`
   * is not part of the host name.
   */
  lemma HostNameStopsAtSecondSeparator(scheme: string, name: string, rest: string)
    requires '/' !in scheme && '/' !in name
    ensures HostName(scheme + "//" + name + "//" + rest) == Some(name)
  {
    var tail := name + "//" + rest;
    assert scheme + "//" + name + "//" + rest == scheme + "//" + tail;
    HostNameAfterScheme(scheme, tail);
    IndexOfSep(name, "//", rest);
    SplitFound(tail, "//", |name|);
    assert tail[..|name|] == name;
  }

  // ---------------------------------------------------------------- summary string

  /** One application as the summary lists it: its name, then its version if it has one. */
  function AppLabel(m: AppMatch): string {
    m.appName + (if m.version != "" then " " + m.version else "")
  }

  /** The labels of the matches, in order. */
  function Labels(ms: seq<AppMatch>): (r: seq<string>)
    ensures |r| == |ms|
  {
    seq(|ms|, k requires 0 <= k < |ms| => AppLabel(ms[k]))
  }

  /** The services summary of a host: its labels joined by `, `, with every `'` removed. */
  function Summary(ms: seq<AppMatch>): string {
    RemoveAll(Join(Labels(ms), ", "), '\'')
  }

  /** The summary is built by appending each label, preceded by `, ` after the first. */
  method SummarizeMatches(ms: seq<AppMatch>) returns (summary: string)
    ensures summary == Summary(ms)
    ensures '\'' !in summary
  {
    var results := "";
    var i := 0;
    while i < |ms|
      invariant 0 <= i <= |ms|
      invariant results == Join(Labels(ms[..i]), ", ")
    {
      var a := ms[i];
      assert Labels(ms[..i + 1]) == Labels(ms[..i]) + [AppLabel(a)];
      JoinSnoc(Labels(ms[..i]), AppLabel(a), ", ");
      ghost var joined := results;
      if i != 0 {
        results := results + ", ";
      }
      results := results + a.appName;
      if a.version != "" {
        results := results + " " + a.version;
      }
      assert results == (if i == 0 then "" else joined + ", ") + AppLabel(a);
      i := i + 1;
    }
    assert ms[..|ms|] == ms;
    summary := RemoveAll(results, '\'');
  }

  /**
   * When no name or version holds a `,` or a `'`, the summary splits on `, ` back into
   * the labels, one per match and in order.
   */
  lemma SummaryListsLabels(ms: seq<AppMatch>)
    requires ms != []
    requires forall k :: 0 <= k < |ms| ==> ',' !in AppLabel(ms[k]) && '\'' !in AppLabel(ms[k])
    ensures Split(Summary(ms), ", ") == Labels(ms)
  {
    var labels := Labels(ms);
    JoinAvoids(labels, ", ", '\'');
    SplitJoin(labels, ", ");
  }

  /** Joining parts and a separator that all lack a character gives text without it. */
  lemma {:induction false} JoinAvoids(parts: seq<string>, sep: string, c: char)
    requires c !in sep
    requires forall k :: 0 <= k < |parts| ==> c !in parts[k]
    ensures c !in Join(parts, sep)
  {
    if |parts| > 1 {
      JoinAvoids(parts[1..], sep, c);
      JoinCons(parts[0], parts[1..], sep);
      assert parts == [parts[0]] + parts[1..];
    }
  }

  // ---------------------------------------------------------------- batch

  /** The update batch: host names and summaries, index-aligned; or the host that aborted the scan. */
  datatype Batch = Batch(hosts: seq<string>, services: seq<string>) | HostWithoutScheme(host: string)

  /** The results that are used, in order. */
  function Kept(results: seq<AnalysisResult>): (r: seq<AnalysisResult>)
    ensures |r| <= |results|
    ensures forall k :: 0 <= k < |r| ==> Correlatable(r[k]) && r[k] in results
  {
    if results == [] then []
    else
      var last := results[|results| - 1];
      Kept(results[..|results| - 1]) + (if Correlatable(last) then [last] else [])
  }

  /** The batch built from the results in order; the first used result without `//` aborts. */
  function Correlate(results: seq<AnalysisResult>): (b: Batch)
    ensures b.Batch? ==> |b.hosts| == |b.services|
  {
    if results == [] then Batch([], [])
    else
      var last := results[|results| - 1];
      match Correlate(results[..|results| - 1])
      case HostWithoutScheme(h) => HostWithoutScheme(h)
      case Batch(hosts, services) =>
        if !Correlatable(last) then Batch(hosts, services)
        else match HostName(last.host)
          case None => HostWithoutScheme(last.host)
          case Some(name) => Batch(hosts + [name], services + [Summary(last.matches)])
  }

  /**
   * Without an abort, the batch holds exactly one host name and one summary per used
   * result, at the same index and in the order of the results.
   */
  lemma {:induction false} CorrelateAligned(results: seq<AnalysisResult>)
    requires Correlate(results).Batch?
    ensures |Correlate(results).hosts| == |Kept(results)|
    ensures forall k :: 0 <= k < |Kept(results)| ==>
      HostName(Kept(results)[k].host) == Some(Correlate(results).hosts[k])
      && Correlate(results).services[k] == Summary(Kept(results)[k].matches)
  {
    if results != [] {
      var init := results[..|results| - 1];
      CorrelateAligned(init);
    }
  }

  /** The scan aborts exactly when some used result has a host without `//`. */
  lemma {:induction false} CorrelateAbortsIff(results: seq<AnalysisResult>)
    ensures Correlate(results).HostWithoutScheme? <==>
      exists k :: 0 <= k < |results| && Correlatable(results[k]) && !Contains(results[k].host, "//")
  {
    if results != [] {
      var init := results[..|results| - 1];
      CorrelateAbortsIff(init);
      if exists k :: 0 <= k < |init| && Correlatable(init[k]) && !Contains(init[k].host, "//") {
        var k :| 0 <= k < |init| && Correlatable(init[k]) && !Contains(init[k].host, "//");
        assert results[k] == init[k];
      }
      if exists k :: 0 <= k < |results| && Correlatable(results[k]) && !Contains(results[k].host, "//") {
        var k :| 0 <= k < |results| && Correlatable(results[k]) && !Contains(results[k].host, "//");
        if k < |init| {
          assert init[k] == results[k];
        }
      }
    }
  }

  /** Once a prefix of the results aborts, so do all the results. */
  lemma {:induction false} CorrelateAbortSticks(results: seq<AnalysisResult>, i: nat)
    requires i <= |results| && Correlate(results[..i]).HostWithoutScheme?
    ensures Correlate(results) == Correlate(results[..i])
    decreases |results| - i
  {
    if i < |results| {
      assert results[..i + 1][..i] == results[..i];
      CorrelateAbortSticks(results, i + 1);
    } else {
      assert results[..i] == results;
    }
  }

  /** The loop over the results that fills the host and service arrays. */
  method CollectServices(results: seq<AnalysisResult>) returns (batch: Batch)
    ensures batch == Correlate(results)
  {
    var hostsArray: seq<string> := [];
    var servicesArray: seq<string> := [];
    var i := 0;
    while i < |results|
      invariant 0 <= i <= |results|
      invariant Correlate(results[..i]) == Batch(hostsArray, servicesArray)
    {
      var result := results[i];
      assert results[..i + 1][..i] == results[..i];
      i := i + 1;
      if result.failed {
        continue;
      }
      if |result.matches| == 0 {
        continue;
      }
      var parts := Split(result.host, "//");
      if |parts| < 2 {
        CorrelateAbortSticks(results, i);
        return HostWithoutScheme(result.host);
      }
      var hostName := RemoveAll(parts[1], '/');
      hostsArray := hostsArray + [hostName];
      var summary := SummarizeMatches(result.matches);
      servicesArray := servicesArray + [summary];
    }
    assert results[..|results|] == results;
    batch := Batch(hostsArray, servicesArray);
  }

  // ---------------------------------------------------------------- guarded merge

  /** The services of a domain are replaced only when NULL or not already holding the summary. */
  predicate NeedsUpdate(current: Option<string>, summary: string) {
    current.None? || !Contains(current.value, summary)
  }

  /** No host name occurs twice in the batch. */
  predicate Distinct(hosts: seq<string>) {
    forall i, j :: 0 <= i < j < |hosts| ==> hosts[i] != hosts[j]
  }

  /** The summary the batch pairs with a host name, if the name is in the batch. */
  function SummaryFor(hosts: seq<string>, services: seq<string>, name: string): (r: Option<string>)
    requires |hosts| == |services|
    ensures r.Some? <==> name in hosts
    ensures Distinct(hosts) ==> forall k :: 0 <= k < |hosts| && hosts[k] == name ==> r == Some(services[k])
  {
    if hosts == [] then None
    else if hosts[0] == name then Some(services[0])
    else SummaryFor(hosts[1..], services[1..], name)
  }

  /** The new services of one domain row. */
  function MergedRow(current: Option<string>, summary: Option<string>): Option<string> {
    match summary
    case None => current
    case Some(s) => if NeedsUpdate(current, s) then Some(s) else current
  }

  /** The batched update on the services column: a map from domain name to services (None for NULL). */
  function MergeServices(table: map<string, Option<string>>, hosts: seq<string>, services: seq<string>)
    : (t: map<string, Option<string>>)
    requires |hosts| == |services| && Distinct(hosts)
    ensures t.Keys == table.Keys
    ensures forall name :: name in table && name !in hosts ==> t[name] == table[name]
    ensures forall k :: 0 <= k < |hosts| && hosts[k] in table ==>
      t[hosts[k]] == (if NeedsUpdate(table[hosts[k]], services[k]) then Some(services[k]) else table[hosts[k]])
  {
    map name | name in table :: MergedRow(table[name], SummaryFor(hosts, services, name))
  }

  /** After the update every batch host in the table holds its summary. */
  lemma MergeHoldsSummaries(table: map<string, Option<string>>, hosts: seq<string>, services: seq<string>)
    requires |hosts| == |services| && Distinct(hosts)
    ensures forall k :: 0 <= k < |hosts| && hosts[k] in table ==>
      !NeedsUpdate(MergeServices(table, hosts, services)[hosts[k]], services[k])
  {
    forall k | 0 <= k < |hosts| && hosts[k] in table
      ensures !NeedsUpdate(MergeServices(table, hosts, services)[hosts[k]], services[k])
    {
      ContainsSelf(services[k]);
    }
  }

  /** Applying the same batch twice leaves the table as applying it once. */
  lemma MergeIdempotent(table: map<string, Option<string>>, hosts: seq<string>, services: seq<string>)
    requires |hosts| == |services| && Distinct(hosts)
    ensures MergeServices(MergeServices(table, hosts, services), hosts, services) == MergeServices(table, hosts, services)
  {
    var once := MergeServices(table, hosts, services);
    var twice := MergeServices(once, hosts, services);
    MergeHoldsSummaries(table, hosts, services);
    forall name | name in once
      ensures twice[name] == once[name]
    {
      if name in hosts {
        var k :| 0 <= k < |hosts| && hosts[k] == name;
        assert !NeedsUpdate(once[hosts[k]], services[k]);
      }
    }
  }
}
