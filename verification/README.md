# Host scanner model

A Dafny model of the host scanner of crossfeed-agent (`hostscanner.go`). A scan
(`initHostScan`) works in these steps:

- It resolves the HTTP paths to probe. These come from the structured request's URI, a
  literal path, or a named list under `config/hostscanner/`.
- It selects the hosts from the `"Domains"` inventory with a SQL query built from the
  request's filters.
- It writes one `http://` or `https://` line per host.
- It builds the argument vector of the `meg` prober and reports `(100*cur)/count`
  progress for every line the prober prints.
- It decides whether the end of the prober's stream is fatal.
- With a structured request, it greps the captured responses and turns the matching lines
  into alert lines and one notification.
- When the index page `/` was scanned, it turns the web-analysis results of each host into
  a `Name[ Version]` summary. A guarded batch `UPDATE` then merges these summaries into the
  services column.

Everything the scan reads from outside comes in as a value (`HostScanner.World`): the
entries of the configuration directory (files with their lines, or directories), the rows
the database returns for a query, the prober's output lines and how its stream ended, the grep output of each pattern, the analysis results and the
services column. The database column is a `map<string, Option<string>>`, with `None` for
NULL. Go maps that are ranged over (the request's `Filters` and `Headers`) are sequences of
entries, in the order the loop visits them.

Modules, one per file:

- `Wrappers` holds `Option`.
- `GoStrings` models the Go string functions the scanner calls. These are `strings.Contains`,
  `Index`, `Split`, `SplitN(…, 2)`, `Replace` with one or all occurrences, `Join`, and `%d`.
  Each comes with the properties the rest of the model needs.
- `Requests` holds the inventory row and the structured request.
- `Targets` covers the host list, path resolution and the host query.
- `Runner` covers the prober's arguments, the progress and the end-of-stream verdict.
- `Alerts` is the alert scanner.
- `Fingerprint` covers the host name, the summary string, the batch and the guarded merge.
- `HostScanner` is the whole scan: the function `Scan` and the method `InitHostScan` that
  runs the steps.

The loops of the source are methods with loop invariants. Each is proved equal to a
specification function (`WriteHostList`, `ResolvePaths`, `BuildQuery`, `BuildProberArgs`,
`StreamProgress`, `ScanAlerts`, `SummarizeMatches`, `CollectServices`, `InitHostScan`). The
lemmas are stated about those functions.

Where the code and its description differ, the model follows the code:

- Progress is not capped at 100. When the prober prints more lines than there are
  domains, the reported value passes 100 once `100*cur >= 101*count`
  (`Runner.PercentBounds`).
- A request whose filters all have empty value lists builds the bare query that ends
  in `WHERE ` (`Targets.BareWhereIffNoValues`). A SQL database rejects it as a syntax
  error, so `db.Query` fails (hostscanner.go:103-104) and `handleError` ends the scan;
  it does not select every domain. The model treats the database as an input function
  of the query text, so `Scan` goes on with whatever rows that function gives for this
  query.
- With no domain selected, the first prober line divides by zero. That is a Go panic, and
  it is modelled as an abort (`HostScanner.DivByZeroIff`).
- The host name is the text between the first and the second `//` of the host, not all of
  the text after the first `//` (`Fingerprint.HostNameStopsAtSecondSeparator`).
- A host without any `//` makes `Split(…)[1]` panic. This is modelled as an abort.
- A scan started from JSON input always has the input `""` (hostscanner.go:54). So it
  never fingerprints (`HostScanner.FingerprintOnlyForIndex`).
- Fingerprinting runs only when the input is exactly `/` (hostscanner.go:222). A named
  config list that contains the path `/` never triggers it
  (`HostScanner.FingerprintOnlyForIndex`).
- A config id that names a directory does not stop the scan. Examples are `""`, `..`, or
  a subdirectory of `config/hostscanner/`. Opening a directory succeeds, its first read
  fails, and that read error is never checked. So the scan goes on with no paths
  (`Targets.RootIdGivesNoPaths`). Only a name under which nothing exists is fatal.

## Model

| member | source | states |
|---|---|---|
| `Targets.WriteHostList` | hostscanner.go:113-126 | one host line per row, in row order: `https://` + name when the ports mention 443, else `http://` + name; `count` is the number of rows |
| `Targets.HostLineRoundTrip` | hostscanner.go:119-123 | a host line gives back the row's name and, through its scheme, whether its ports contain "443" |
| `Targets.ResolvePaths` | hostscanner.go:67-85 | with a request the paths are `[Uri]`; else an input starting with `/` is the single path; else the lines of the named config file in order, no paths when the name is a directory, or the fatal "Unable to find config file" error when nothing exists under the name |
| `Targets.ConfigFileStaysUnderRoot` | hostscanner.go:75 | the config file name starts with `config/hostscanner`, continues with `/` or ends there, and holds no `.` (every `.` of the id is removed first) |
| `Targets.DottedIdNamesFile` | hostscanner.go:75 | an id without `/` that keeps a character once its dots are removed names the file `config/hostscanner/` followed by that dot-free id |
| `Targets.DotsNameTheRoot` | hostscanner.go:75 | an id made only of `.` and `/` (such as `""` or `..`) names the configuration directory itself |
| `Targets.RootIdGivesNoPaths` | hostscanner.go:75-84 | without a request, such an id opens the configuration directory and the scan goes on with no paths |
| `Targets.BuildQuery` | hostscanner.go:87-102 | the query is the fixed default without a request, and otherwise the `WHERE ` prefix followed by the AND-join of one OR-group per filter that has values |
| `Targets.AndCondsEmpty` | hostscanner.go:90-100 | no AND-operand is produced exactly when every filter's value list is empty |
| `Targets.BareWhereIffNoValues` | hostscanner.go:88-101 | with a request, the query ends right after `WHERE ` exactly when every filter's value list is empty |
| `Targets.AndCondsOrGroups` | hostscanner.go:90-100 | each AND-operand is the parenthesised OR-group of a filter of the request that has values |
| `Targets.ValuedFiltersMembers` | hostscanner.go:90-93 | a filter is visited for clauses exactly when it is one of the request's filters and its value list is non-empty |
| `Targets.AndCondsValued` | hostscanner.go:90-100 | there is one AND-operand per filter with values, and the k-th operand is the OR-group of the k-th such filter, in visiting order |
| `Targets.AndCondsComplete` | hostscanner.go:90-100 | every filter with a value contributes its OR-group to the query |
| `Targets.QueryExample` | hostscanner.go:87-102 | for `ports` in {80, 443} then `name` with `example`, the query is the prefix followed by `(ports LIKE '%80%' OR ports LIKE '%443%') AND (name LIKE '%example%')` |
| `Runner.ProberArgs` | hostscanner.go:142-165 | the arguments start with `-c 30 -v` and end with the paths file, the hosts file and the output directory; with a request `-X Method` follows the prefix |
| `Runner.BuildProberArgs` | hostscanner.go:142-165 | the appends give the prefix, then `-X Method`, the header flags in order, `-b Body` only when the body is non-empty, then the three paths |
| `Runner.HeaderFlagsRoundTrip` | hostscanner.go:147-156 | reading the header flags back gives exactly the kept headers in order: `Host`/`User-Agent` with `{host}` dropped, the other overrides preceded by `--rawhttp`, each as `-H "name: value"` |
| `Runner.StreamProgress` | hostscanner.go:177-183 | the k-th output line reports `(100*k)/count`; with no domains the first line is a division by zero |
| `Runner.ProgressMonotone` | hostscanner.go:179-181 | a later line never reports less progress than an earlier one |
| `Runner.PercentBounds` | hostscanner.go:181 | progress is never negative, is 100 at line `count`, and is at most 100 exactly while `100*cur < 101*count`, so nothing caps it |
| `Runner.AfterStream` | hostscanner.go:185-190 | a run past its deadline always continues; otherwise a read error is fatal and carries that error |
| `Alerts.ScanAlerts` | hostscanner.go:192-217 | the alerts are those of every grep line of every pattern, in order; one notification is sent exactly when there is at least one alert |
| `Alerts.PatternAlertsExactly` | hostscanner.go:202-212 | an alert is in a pattern's list exactly when some grep line of that pattern raises it |
| `Alerts.RejectedLinesRaiseNothing` | hostscanner.go:204-206 | lines without `/`, without `:`, or holding `megoutput//index:` raise no alert |
| `Alerts.GrepLineAlert` | hostscanner.go:203-209 | the grep line `outPath/domain/file:text` of a captured response raises `Domain <domain> matched string <pattern>: <text>` |
| `Alerts.GrepLineDomain` | hostscanner.go:207 | cutting out the first `outPath + "/"` leaves the domain as the first `/`-segment |
| `Alerts.GrepLineExcerpt` | hostscanner.go:208 | the excerpt is everything after the first `:` |
| `Alerts.NoticeCountsAlerts` | hostscanner.go:214-216 | the notification's heading starts with the number of alerts in decimal, and its remaining lines are exactly the alerts |
| `Fingerprint.HostName` | hostscanner.go:258 | a host name exists exactly when the host holds `//`, and it holds no `/` |
| `Fingerprint.HostNameAfterScheme` | hostscanner.go:258 | after a scheme without `/`, the host name is the first `//`-piece of the rest with every `/` removed |
| `Fingerprint.HostNameOfAddress` | hostscanner.go:258 | the host name of `scheme//name/` is `name` |
| `Fingerprint.HostNameStopsAtSecondSeparator` | hostscanner.go:258 | whatever follows a second `//` is not part of the host name |
| `Fingerprint.SummarizeMatches` | hostscanner.go:261-281 | the summary is the labels `AppName[ Version]` joined by `, `, with every `'` removed |
| `Fingerprint.SummaryListsLabels` | hostscanner.go:261-281 | when names and versions hold no `,` or `'`, the summary splits on `, ` back into one label per match, in order |
| `Fingerprint.CollectServices` | hostscanner.go:245-283 | the loop builds the batch that `Correlate` specifies, or aborts on the first used host without `//` |
| `Fingerprint.CorrelateAligned` | hostscanner.go:248-283 | without an abort, host names and summaries are index-aligned: one of each per result that has no error and at least one match, in order |
| `Fingerprint.CorrelateAbortsIff` | hostscanner.go:248-258 | the batch aborts exactly when some used result's host has no `//` |
| `Fingerprint.SummaryFor` | hostscanner.go:288-289 | a domain joins the batch exactly when its name is in it, and it is paired with the summary at the same index |
| `Fingerprint.MergeServices` | hostscanner.go:287-291 | the domain names stay the same; names outside the batch are unchanged; a batch name's services are replaced by the summary exactly when they were NULL or did not contain it |
| `Fingerprint.MergeHoldsSummaries` | hostscanner.go:287-291 | after the update every batch name in the table holds its summary |
| `Fingerprint.MergeIdempotent` | hostscanner.go:287-291 | applying the same batch twice gives the same table as applying it once |
| `GoStrings.SplitOnce` | hostscanner.go:208 | `SplitN(s, sep, 2)` has a second piece exactly when `sep` occurs, and then the pieces are the text before its first occurrence (the first piece's length is that occurrence's index) and the rest |
| `GoStrings.ReplaceFirst` | hostscanner.go:207 | replacing the first occurrence leaves the text alone when the pattern is absent, and swaps a leading pattern |
| `GoStrings.RemoveAll` | hostscanner.go:75 | removing every occurrence of a character leaves no occurrence and every other character |
| `GoStrings.JoinSplit` | hostscanner.go:258 | splitting loses no text: the pieces of the host split on `//`, joined again with `//`, give the host back |
| `GoStrings.SplitJoin` | hostscanner.go:216 | splitting joined parts that lack the separator's first character gives the parts back |
| `GoStrings.SplitAvoids` | hostscanner.go:75 | a character absent from the text is absent from every piece of its split |
| `GoStrings.NatToStringRoundTrip` | hostscanner.go:215 | the decimal text of a count reads back as that count |
| `HostScanner.PathsOf` | hostscanner.go:57-65 | the hosts file, the paths file and the output directory are distinct, under the scan's root, and the output directory ends in `/` |
| `HostScanner.InitHostScan` | hostscanner.go:56-225 | the steps in program order give the outcome `Scan` specifies, including every abort |
| `HostScanner.NoAlertsWithoutRequest` | hostscanner.go:192 | without a request no alert notification is sent |
| `HostScanner.NoticeWithRequest` | hostscanner.go:192-217 | with a request, a finished scan notifies exactly when the grep output raised alerts, and lists them after the heading |
| `HostScanner.FingerprintOnlyForIndex` | hostscanner.go:222-224 | a scan of any input other than `/` leaves the services column unchanged and never aborts on a host |
| `HostScanner.IndexScanMerges` | hostscanner.go:222-224 | a finished scan of `/` merged the batch of its analysis results, and every batch host in the table holds its summary |
| `HostScanner.RescanLeavesServices` | hostscanner.go:287-291 | scanning `/` again with the same analysis results leaves the services column as the first scan left it |
| `HostScanner.DivByZeroIff` | hostscanner.go:177-182 | a scan stops on division by zero exactly when the paths resolve, the query selects no domain and the prober prints a line |
| `HostScanner.ProberUsesScanFiles` | hostscanner.go:163-165 | a finished scan passes the scan's own paths file, hosts file and output directory to the prober, writes one host line per row and sends one progress value per output line |

## Left out

- Database access (`db.Query`, `rows.Scan`, `db.Exec`, `pq.Array`). The rows a query selects are an input function of the query text. SQL `LIKE` matching is not evaluated. The batch `UPDATE` is a function on the services map.
- Creating the scan directory and the hosts and paths files, and writing them. Their contents are the modelled sequences of lines, without the trailing newlines.
- Starting the `meg` and `grep` subprocesses, reading their pipes, and `context.WithTimeout`. The prober's output lines, how its stream ended, and each pattern's grep output are inputs.
- `bufio.Scanner` details: the token-size limit and the stripping of `\r`.
- Failures to start a subprocess, to open a config file that exists, or to create and write a file. A read error in the middle of a config file is not modelled either: a file entry is read to its end. `handleError` is not part of this model. Each of its calls on a non-nil error is taken to end the scan, and only the end-of-stream read error is modelled.
- The web-analysis library: `webanalyze.Init` with its four workers, `DownloadFile`/`initWappalyzer`, and the category lookup (hostscanner.go:264-268, whose result is never used). The analysis results are an input sequence, in the order the result channel delivers them.
- `fetchHosts` argument dispatch and the JSON decoding of `initWithJSONInput` (hostscanner.go:32-55). Note that `fetchHosts` checks `len(args) < 2` but then reads `args[2]`.
- `getTimestamp` (the scan id is a parameter), `updateTaskPercentage` and `updateTaskOutput` (their arguments are recorded in `Sent`), and logging.
- `StreamProgress`, `Percent`: the line counter `cur` and the product `100*cur` are Go `int`s (hostscanner.go:177-181), which wrap at 2^63; the model's integers are unbounded, so it does not capture that wrap-around (unreachable with any real prober output).
- Duplicate host names in one update batch. PostgreSQL picks an arbitrary matching row, so `Scan` requires distinct names (`DistinctBatch`).
- grep's case-insensitive pattern matching. Which lines a pattern matches is part of the grep output input.
- Log lines. Of the updates sent before an abort, only the progress values and the notification are kept.
