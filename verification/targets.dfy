/**
 * Target resolution in `initHostScan`: the host list written to hosts.txt, the path list
 * written to paths.txt, and the inventory query that selects the hosts.
 */
module Targets {

  import opened Wrappers
  import opened GoStrings
  import opened Requests

  // ---------------------------------------------------------------- host list

  /** The scheme put in front of a host name: `https://` when the port descriptor mentions 443. */
  function Scheme(ports: string): string {
    if Contains(ports, "443") then "https://" else "http://"
  }

  /** The line of hosts.txt for one inventory row (written followed by a newline). */
  function HostLine(row: DomainRow): string {
    Scheme(row.ports) + row.name
  }

  /** The lines of hosts.txt, one per row and in row order. */
  function HostLines(rows: seq<DomainRow>): (lines: seq<string>)
    ensures |lines| == |rows|
  {
    seq(|rows|, k requires 0 <= k < |rows| => HostLine(rows[k]))
  }

  /** How a reader of hosts.txt splits a line into "uses TLS" and the host name. */
  function ParseHostLine(line: string): Option<(bool, string)> {
    if "https://" <= line then Some((true, line[|"https://"|..]))
    else if "http://" <= line then Some((false, line[|"http://"|..]))
    else None
  }

  /** A host line carries the row's name and, through its scheme, whether its ports mention 443. */
  lemma HostLineRoundTrip(row: DomainRow)
    ensures ParseHostLine(HostLine(row)) == Some((Contains(row.ports, "443"), row.name))
  {
    var line := HostLine(row);
    if Contains(row.ports, "443") {
      assert line == "https://" + row.name;
      assert "https://" <= line;
      assert line[|"https://"|..] == row.name;
    } else {
      assert line == "http://" + row.name;
      assert line[4] == ':';
      assert !("https://" <= line);
      assert "http://" <= line;
      assert line[|"http://"|..] == row.name;
    }
  }

  /**
   * The loop over the query's rows: one host line per row, in row order, and `count`
   * the number of rows.
   */
  method WriteHostList(rows: seq<DomainRow>) returns (hostLines: seq<string>, count: nat)
    ensures hostLines == HostLines(rows)
    ensures count == |rows| && |hostLines| == |rows|
    ensures forall k :: 0 <= k < |rows| ==>
      hostLines[k] == (if Contains(rows[k].ports, "443") then "https://" else "http://") + rows[k].name
  {
    hostLines := [];
    count := 0;
    var i := 0;
    while i < |rows|
      invariant 0 <= i <= |rows|
      invariant count == i && |hostLines| == i
      invariant forall k :: 0 <= k < i ==> hostLines[k] == HostLine(rows[k])
    {
      var protocol := "http://";
      if Contains(rows[i].ports, "443") {
        protocol := "https://";
      }
      hostLines := hostLines + [protocol + rows[i].name];
      count := count + 1;
      i := i + 1;
    }
  }

  // ---------------------------------------------------------------- path list

  /** The directory that named path lists are read from. */
  const ConfigRoot := "config/hostscanner"

  /** The path elements joined by `/`, each preceded by one. */
  function ElementsPath(elements: seq<string>): string {
    if elements == [] then "" else "/" + elements[0] + ElementsPath(elements[1..])
  }

  /**
   * `path.Join("config/hostscanner/", id)` with every `.` removed from `id` first. On a
   * path without dots, `path.Join` keeps the non-empty elements and joins them with one
   * `/`; no `.` or `..` element can remain.
   */
  function ConfigFileName(id: string): string {
    ConfigRoot + ElementsPath(NonEmpty(Split(RemoveAll(id, '.'), "/")))
  }

  /** Joining elements that hold no character `c` gives a path without `c`. */
  lemma {:induction false} ElementsPathAvoids(elements: seq<string>, c: char)
    requires c != '/'
    requires forall k :: 0 <= k < |elements| ==> c !in elements[k]
    ensures c !in ElementsPath(elements)
  {
    if elements != [] {
      ElementsPathAvoids(elements[1..], c);
    }
  }

  /**
   * A named path list is always looked up inside the configuration directory: the file
   * name starts with that directory and holds no `.`, so no `..` can climb out of it.
   */
  lemma ConfigFileStaysUnderRoot(id: string)
    ensures ConfigRoot <= ConfigFileName(id)
    ensures ConfigFileName(id) == ConfigRoot || ConfigRoot + "/" <= ConfigFileName(id)
    ensures '.' !in ConfigFileName(id)
  {
    var elements := NonEmpty(Split(RemoveAll(id, '.'), "/"));
    ElementsWithoutDot(id);
    ElementsPathAvoids(elements, '.');
    var name := ConfigFileName(id);
    assert name == ConfigRoot + ElementsPath(elements);
    assert name[..|ConfigRoot|] == ConfigRoot;
    if elements != [] {
      assert name[..|ConfigRoot| + 1] == ConfigRoot + "/";
    }
  }

  /** No path element of a dot-free id holds a `.`. */
  lemma ElementsWithoutDot(id: string)
    ensures forall k :: 0 <= k < |NonEmpty(Split(RemoveAll(id, '.'), "/"))| ==>
      '.' !in NonEmpty(Split(RemoveAll(id, '.'), "/"))[k]
  {
    SplitAvoids(RemoveAll(id, '.'), "/", '.');
  }

  /**
   * What can be opened under a name inside the configuration directory (the directory
   * itself included): a file with its lines, or a directory.
   */
  datatype ConfigEntry = File(lines: seq<string>) | Directory

  /**
   * The lines a line scanner reads from an opened entry. Opening a directory succeeds, but
   * its first read fails, which ends the scan with no line; that error is never inspected.
   */
  function ScannedLines(e: ConfigEntry): seq<string> {
    match e
    case File(lines) => lines
    case Directory => []
  }

  /** Where the paths of a scan come from, or the fatal error when the named list is missing. */
  datatype Resolution = Paths(paths: seq<string>) | ConfigNotFound(message: string)

  /** The path list of a scan: the request's URI, a single literal path, or a named list. */
  function PathsFor(input: string, request: Option<ScanRequest>, configFiles: map<string, ConfigEntry>): Resolution {
    if request.Some? then Paths([request.value.request.uri])
    else if "/" <= input then Paths([input])
    else if ConfigFileName(input) in configFiles then Paths(ScannedLines(configFiles[ConfigFileName(input)]))
    else ConfigNotFound("Unable to find config file " + input)
  }

  /**
   * Path resolution. `configFiles` maps the names that exist under the configuration
   * directory to what they are; the lines of a named list are copied one by one, in order.
   */
  method ResolvePaths(input: string, request: Option<ScanRequest>, configFiles: map<string, ConfigEntry>)
    returns (r: Resolution)
    ensures r == PathsFor(input, request, configFiles)
    ensures request.Some? ==> r == Paths([request.value.request.uri])
    ensures request.None? && "/" <= input ==> r == Paths([input])
    ensures request.None? && !("/" <= input) ==>
      if ConfigFileName(input) !in configFiles then r.ConfigNotFound?
      else match configFiles[ConfigFileName(input)]
        case File(lines) => r == Paths(lines)
        case Directory => r == Paths([])
  {
    if request.Some? {
      return Paths([request.value.request.uri]);
    } else if "/" <= input {
      return Paths([input]);
    }
    var name := ConfigFileName(input);
    if name !in configFiles {
      return ConfigNotFound("Unable to find config file " + input);
    }
    var lines := ScannedLines(configFiles[name]);
    var paths: seq<string> := [];
    var i := 0;
    while i < |lines|
      invariant 0 <= i <= |lines|
      invariant paths == lines[..i]
    {
      paths := paths + [lines[i]];
      i := i + 1;
    }
    assert lines[..|lines|] == lines;
    r := Paths(paths);
  }

  /**
   * An id without `/` that keeps at least one character once its dots are removed names
   * the file of that dot-free id directly inside the configuration directory.
   */
  lemma DottedIdNamesFile(id: string)
    requires '/' !in id && RemoveAll(id, '.') != []
    ensures ConfigFileName(id) == ConfigRoot + "/" + RemoveAll(id, '.')
  {
    RemoveAllKeeps(id, '.', '/');
    SingleElementPath(RemoveAll(id, '.'));
  }

  /** A non-empty text without `/` is a single path element. */
  lemma SingleElementPath(t: string)
    requires '/' !in t && t != []
    ensures ElementsPath(NonEmpty(Split(t, "/"))) == "/" + t
  {
    assert "/"[0] == '/';
    IndexOfSepAbsent(t, "/");
    assert Split(t, "/") == [t];
    assert [t][1..] == [];
    assert NonEmpty([t]) == [t];
  }

  /**
   * An id made only of `.` and `/` names the configuration directory itself: every `.` is
   * removed, and the empty elements between the slashes are dropped by the join.
   */
  lemma DotsNameTheRoot(id: string)
    requires forall k :: 0 <= k < |id| ==> id[k] == '.' || id[k] == '/'
    ensures ConfigFileName(id) == ConfigRoot
  {
    var t := RemoveAll(id, '.');
    forall k | 0 <= k < |t|
      ensures t[k] == '/'
    {
      assert t[k] in multiset(t);
    }
    SlashesSplitEmpty(t);
    NonEmptyOfEmpties(Split(t, "/"));
  }

  /** Splitting a run of slashes on `/` gives only empty pieces. */
  lemma {:induction false} SlashesSplitEmpty(t: string)
    requires forall k :: 0 <= k < |t| ==> t[k] == '/'
    ensures forall k :: 0 <= k < |Split(t, "/")| ==> Split(t, "/")[k] == ""
    decreases |t|
  {
    if t != [] {
      IndexOfCharAt(t, '/', 0);
      assert "/" == ['/'];
      SplitFound(t, "/", 0);
      SlashesSplitEmpty(t[1..]);
      var parts := Split(t, "/");
      forall k | 0 <= k < |parts|
        ensures parts[k] == ""
      {
        if k > 0 {
          assert parts[k] == Split(t[1..], "/")[k - 1];
        }
      }
    }
  }

  /** Dropping the empty parts of a list of empty parts leaves nothing. */
  lemma {:induction false} NonEmptyOfEmpties(parts: seq<string>)
    requires forall k :: 0 <= k < |parts| ==> parts[k] == ""
    ensures NonEmpty(parts) == []
  {
    if parts != [] {
      NonEmptyOfEmpties(parts[1..]);
    }
  }

  /**
   * Without a request, an input such as `""` or `..` opens the configuration directory:
   * the scan goes on with no paths at all instead of stopping on a missing file.
   */
  lemma RootIdGivesNoPaths(input: string, configFiles: map<string, ConfigEntry>)
    requires forall k :: 0 <= k < |input| ==> input[k] == '.' || input[k] == '/'
    requires !("/" <= input)
    requires ConfigRoot in configFiles && configFiles[ConfigRoot] == Directory
    ensures PathsFor(input, None, configFiles) == Paths([])
  {
    DotsNameTheRoot(input);
  }

  // ---------------------------------------------------------------- host query

  /** The host query without a structured request: every domain with port 80 or 443. */
  const DefaultQuery := "SELECT name, ports FROM \"Domains\" WHERE ports LIKE '%80%' OR ports LIKE '%443%';"

  /** The start of the host query built from a structured request's filters. */
  const FilteredQueryPrefix := "SELECT name, ports FROM \"Domains\" WHERE "

  /** `fmt.Sprintf("%s LIKE '%%%s%%'", column, value)`. */
  function LikeClause(column: string, value: string): string {
    column + " LIKE '%" + value + "%'"
  }

  /** One LIKE clause per value, in order. */
  function LikeClauses(column: string, values: seq<string>): seq<string> {
    seq(|values|, k requires 0 <= k < |values| => LikeClause(column, values[k]))
  }

  /** The OR-group of one filter. */
  function OrGroup(f: Filter): string {
    "(" + Join(LikeClauses(f.column, f.values), " OR ") + ")"
  }

  /** The AND-operands: one OR-group per filter that has at least one value, in order. */
  function AndConds(filters: seq<Filter>): seq<string> {
    if filters == [] then []
    else
      var last := filters[|filters| - 1];
      AndConds(filters[..|filters| - 1]) + (if last.values == [] then [] else [OrGroup(last)])
  }

  /** The host-selection query. */
  function QueryFor(request: Option<ScanRequest>): string {
    if request.None? then DefaultQuery
    else FilteredQueryPrefix + Join(AndConds(request.value.filters), " AND ")
  }

  /** The nested loops that build the query from the request's filters. */
  method BuildQuery(request: Option<ScanRequest>) returns (query: string)
    ensures query == QueryFor(request)
    ensures request.None? ==> query == DefaultQuery
    ensures request.Some? ==> FilteredQueryPrefix <= query
  {
    query := DefaultQuery;
    if request.Some? {
      query := FilteredQueryPrefix;
      var filters := request.value.filters;
      var andConds: seq<string> := [];
      var i := 0;
      while i < |filters|
        invariant 0 <= i <= |filters|
        invariant andConds == AndConds(filters[..i])
      {
        assert filters[..i + 1][..i] == filters[..i];
        var f := filters[i];
        if |f.values| == 0 {
          i := i + 1;
          continue;
        }
        var orConds: seq<string> := [];
        var j := 0;
        while j < |f.values|
          invariant 0 <= j <= |f.values|
          invariant |orConds| == j
          invariant forall k :: 0 <= k < j ==> orConds[k] == LikeClause(f.column, f.values[k])
        {
          orConds := orConds + [LikeClause(f.column, f.values[j])];
          j := j + 1;
        }
        assert orConds == LikeClauses(f.column, f.values);
        andConds := andConds + ["(" + Join(orConds, " OR ") + ")"];
        i := i + 1;
      }
      assert filters[..|filters|] == filters;
      query := query + Join(andConds, " AND ");
    }
  }

  /** A filter contributes a group exactly when it has a value: no groups iff every list is empty. */
  lemma {:induction false} AndCondsEmpty(filters: seq<Filter>)
    ensures AndConds(filters) == [] <==> forall k :: 0 <= k < |filters| ==> filters[k].values == []
  {
    if filters != [] {
      var init := filters[..|filters| - 1];
      AndCondsEmpty(init);
      assert forall k :: 0 <= k < |init| ==> init[k] == filters[k];
    }
  }

  /** Every OR-group is non-empty text, so a non-empty list of groups joins to non-empty text. */
  lemma JoinGroupsNonEmpty(groups: seq<string>, sep: string)
    requires groups != [] && groups[0] != ""
    ensures Join(groups, sep) != ""
  {
  }

  /**
   * With a structured request, the query ends right after `WHERE ` exactly when every
   * filter's value list is empty (in particular when there are no filters).
   */
  lemma BareWhereIffNoValues(request: ScanRequest)
    ensures QueryFor(Some(request)) == FilteredQueryPrefix <==>
      forall k :: 0 <= k < |request.filters| ==> request.filters[k].values == []
  {
    var conds := AndConds(request.filters);
    AndCondsEmpty(request.filters);
    if conds != [] {
      assert conds[0][0] == '(' by {
        AndCondsOrGroups(request.filters, 0);
      }
      JoinGroupsNonEmpty(conds, " AND ");
      assert |QueryFor(Some(request))| > |FilteredQueryPrefix|;
    }
  }

  /** Each AND-operand is the OR-group of some filter of the request that has values. */
  lemma {:induction false} AndCondsOrGroups(filters: seq<Filter>, k: nat)
    requires k < |AndConds(filters)|
    ensures exists f :: f in filters && f.values != [] && AndConds(filters)[k] == OrGroup(f)
  {
    var init := filters[..|filters| - 1];
    var last := filters[|filters| - 1];
    if k < |AndConds(init)| {
      AndCondsOrGroups(init, k);
      var f :| f in init && f.values != [] && AndConds(init)[k] == OrGroup(f);
      assert f in filters;
    } else {
      assert AndConds(filters)[k] == OrGroup(last);
    }
  }

  /** The filters that have at least one value, in order. */
  function ValuedFilters(filters: seq<Filter>): (r: seq<Filter>)
    ensures |r| <= |filters|
  {
    if filters == [] then []
    else (if filters[0].values == [] then [] else [filters[0]]) + ValuedFilters(filters[1..])
  }

  /** A filter is among the valued filters exactly when it is a filter of the list with a value. */
  lemma {:induction false} ValuedFiltersMembers(filters: seq<Filter>, f: Filter)
    ensures f in ValuedFilters(filters) <==> f in filters && f.values != []
  {
    if filters != [] {
      ValuedFiltersMembers(filters[1..], f);
      assert filters == [filters[0]] + filters[1..];
    }
  }

  /** Appending a filter appends it to the valued filters when it has a value. */
  lemma {:induction false} ValuedFiltersSnoc(filters: seq<Filter>, f: Filter)
    ensures ValuedFilters(filters + [f]) == ValuedFilters(filters) + (if f.values == [] then [] else [f])
  {
    var s := filters + [f];
    if filters == [] {
      assert s[1..] == [];
    } else {
      assert s[0] == filters[0];
      assert s[1..] == filters[1..] + [f];
      ValuedFiltersSnoc(filters[1..], f);
      AppendAssoc(if filters[0].values == [] then [] else [filters[0]],
        ValuedFilters(filters[1..]), if f.values == [] then [] else [f]);
    }
  }

  /**
   * The AND-operands are the OR-groups of the filters that have values: one per such
   * filter, in the order the filters are visited.
   */
  lemma {:induction false} AndCondsValued(filters: seq<Filter>)
    ensures |AndConds(filters)| == |ValuedFilters(filters)|
    ensures forall k :: 0 <= k < |AndConds(filters)| ==> AndConds(filters)[k] == OrGroup(ValuedFilters(filters)[k])
  {
    if filters != [] {
      var init := filters[..|filters| - 1];
      var last := filters[|filters| - 1];
      AndCondsValued(init);
      assert filters == init + [last];
      ValuedFiltersSnoc(init, last);
    }
  }

  /** No filter with a value is lost: its OR-group is one of the AND-operands. */
  lemma AndCondsComplete(filters: seq<Filter>, f: Filter)
    requires f in filters && f.values != []
    ensures OrGroup(f) in AndConds(filters)
  {
    ValuedFiltersMembers(filters, f);
    AndCondsValued(filters);
    var k :| 0 <= k < |ValuedFilters(filters)| && ValuedFilters(filters)[k] == f;
    assert AndConds(filters)[k] == OrGroup(f);
  }

  /** Appending a filter appends its OR-group, unless its value list is empty. */
  lemma AndCondsSnoc(filters: seq<Filter>, f: Filter)
    ensures AndConds(filters + [f]) == AndConds(filters) + (if f.values == [] then [] else [OrGroup(f)])
  {
    assert (filters + [f])[..|filters|] == filters;
  }

  /**
   * The query for `ports` in {80, 443} and `name` containing "example", with the filters
   * visited in that order: `(ports LIKE '%80%' OR ports LIKE '%443%') AND (name LIKE '%example%')`
   * after the prefix.
   */
  lemma QueryExample()
    ensures QueryFor(Some(ScanRequest(
      [Filter("ports", ["80", "443"]), Filter("name", ["example"])], [], HttpRequest("GET", "/", [], ""))))
      == FilteredQueryPrefix
         + ("(" + "ports LIKE '%80%'" + " OR " + "ports LIKE '%443%'" + ")")
         + " AND " + ("(" + "name LIKE '%example%'" + ")")
  {
    ExampleQueryGroups();
    ExampleGroups();
  }

  /** The example query is the prefix followed by the two OR-groups joined by ` AND `. */
  lemma ExampleQueryGroups()
    ensures QueryFor(Some(ScanRequest(
      [Filter("ports", ["80", "443"]), Filter("name", ["example"])], [], HttpRequest("GET", "/", [], ""))))
      == FilteredQueryPrefix + OrGroup(Filter("ports", ["80", "443"])) + " AND " + OrGroup(Filter("name", ["example"]))
  {
    var ports := Filter("ports", ["80", "443"]);
    var name := Filter("name", ["example"]);
    ExampleConds(ports, name);
    assert [OrGroup(ports), OrGroup(name)][1..] == [OrGroup(name)];
  }

  /** The OR-groups of the two example filters, clause by clause. */
  lemma ExampleGroups()
    ensures OrGroup(Filter("ports", ["80", "443"]))
      == "(" + "ports LIKE '%80%'" + " OR " + "ports LIKE '%443%'" + ")"
    ensures OrGroup(Filter("name", ["example"])) == "(" + "name LIKE '%example%'" + ")"
  {
    var c80, c443 := LikeClause("ports", "80"), LikeClause("ports", "443");
    ExampleClauses();
    assert LikeClauses("ports", ["80", "443"]) == [c80, c443];
    assert [c80, c443][1..] == [c443];
    assert LikeClauses("name", ["example"]) == [LikeClause("name", "example")];
  }

  /** The LIKE clauses of the example, as text. */
  lemma ExampleClauses()
    ensures LikeClause("ports", "80") == "ports LIKE '%80%'"
    ensures LikeClause("ports", "443") == "ports LIKE '%443%'"
    ensures LikeClause("name", "example") == "name LIKE '%example%'"
  {
  }

  /** Two filters with values give their two OR-groups, in order. */
  lemma ExampleConds(a: Filter, b: Filter)
    requires a.values != [] && b.values != []
    ensures AndConds([a, b]) == [OrGroup(a), OrGroup(b)]
  {
    AndCondsSnoc([], a);
    assert [] + [a] == [a];
    AndCondsSnoc([a], b);
    assert [a] + [b] == [a, b];
  }
}
