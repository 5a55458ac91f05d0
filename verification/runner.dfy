/**
 * The bulk request runner of `initHostScan`: the argument vector of the `meg` prober,
 * the progress percentages reported per output line, and what happens when the prober's
 * output stream ends.
 */
module Runner {

  import opened Wrappers
  import opened GoStrings
  import opened Requests

  // ---------------------------------------------------------------- argument vector

  /** The flags every prober run starts with: concurrency 30, verbose output. */
  const FixedFlags := ["-c", "30", "-v"]

  /** `Host` and `User-Agent` overrides need the prober's raw HTTP mode. */
  predicate OverridesHost(name: string) {
    name == "Host" || name == "User-Agent"
  }

  /** An override whose value still holds the `{host}` placeholder is not passed on at all. */
  predicate Dropped(h: Header) {
    OverridesHost(h.name) && Contains(h.value, "{host}")
  }

  /** `fmt.Sprintf("%s: %s", name, val)`. */
  function HeaderText(h: Header): string {
    h.name + ": " + h.value
  }

  /** The flags one header contributes. */
  function HeaderFlags(h: Header): seq<string> {
    if Dropped(h) then []
    else (if OverridesHost(h.name) then ["--rawhttp"] else []) + ["-H", HeaderText(h)]
  }

  /** The flags of all headers, in the order the headers are visited. */
  function HeadersFlags(headers: seq<Header>): seq<string> {
    if headers == [] then [] else HeaderFlags(headers[0]) + HeadersFlags(headers[1..])
  }

  lemma {:induction false} HeadersFlagsSnoc(headers: seq<Header>, h: Header)
    ensures HeadersFlags(headers + [h]) == HeadersFlags(headers) + HeaderFlags(h)
  {
    if headers != [] {
      assert (headers + [h])[1..] == headers[1..] + [h];
      HeadersFlagsSnoc(headers[1..], h);
    } else {
      assert [] + [h] == [h];
      assert [h][1..] == [];
    }
  }

  lemma HeadersFlagsStep(headers: seq<Header>, i: nat)
    requires i < |headers|
    ensures HeadersFlags(headers[..i + 1]) == HeadersFlags(headers[..i]) + HeaderFlags(headers[i])
  {
    assert headers[..i + 1] == headers[..i] + [headers[i]];
    HeadersFlagsSnoc(headers[..i], headers[i]);
  }

  /** The flags between the fixed prefix and the three positional paths. */
  function RequestFlags(request: Option<ScanRequest>): seq<string> {
    match request
    case None => []
    case Some(r) =>
      ["-X", r.request.verb] + HeadersFlags(r.request.headers)
      + (if r.request.body != "" then ["-b", r.request.body] else [])
  }

  /** The complete argument vector of the prober. */
  function ProberArgs(request: Option<ScanRequest>, pathsPath: string, hostsPath: string, outPath: string): (args: seq<string>)
    ensures |args| >= 6 && args[..3] == FixedFlags && args[|args| - 3..] == [pathsPath, hostsPath, outPath]
    ensures request.None? ==> args == FixedFlags + [pathsPath, hostsPath, outPath]
    ensures request.Some? ==> args[3..5] == ["-X", request.value.request.verb]
  {
    FixedFlags + RequestFlags(request) + [pathsPath, hostsPath, outPath]
  }

  /** The appends that build the prober's argument vector. */
  method BuildProberArgs(request: Option<ScanRequest>, pathsPath: string, hostsPath: string, outPath: string)
    returns (args: seq<string>)
    ensures args == ProberArgs(request, pathsPath, hostsPath, outPath)
  {
    args := ["-c", "30", "-v"];
    if request.Some? {
      var r := request.value.request;
      args := args + ["-X"];
      args := args + [r.verb];
      ghost var prefix := args;
      var i := 0;
      while i < |r.headers|
        invariant 0 <= i <= |r.headers|
        invariant args == prefix + HeadersFlags(r.headers[..i])
      {
        var h := r.headers[i];
        HeadersFlagsStep(r.headers, i);
        ghost var before := args;
        i := i + 1;
        if h.name == "Host" || h.name == "User-Agent" {
          if Contains(h.value, "{host}") {
            assert HeaderFlags(h) == [];
            continue;
          }
          args := args + ["--rawhttp"];
        }
        ghost var raw := args;
        assert raw == before + (if OverridesHost(h.name) then ["--rawhttp"] else []);
        args := args + ["-H"];
        args := args + [h.name + ": " + h.value];
        assert args == raw + ["-H", HeaderText(h)];
        AppendAssoc(before, if OverridesHost(h.name) then ["--rawhttp"] else [], ["-H", HeaderText(h)]);
        AppendAssoc(prefix, HeadersFlags(r.headers[..i - 1]), HeaderFlags(h));
      }
      assert r.headers[..|r.headers|] == r.headers;
      ghost var withHeaders := args;
      ghost var bodyFlags: seq<string> := if r.body != "" then ["-b", r.body] else [];
      if r.body != "" {
        args := args + ["-b"];
        args := args + [r.body];
      }
      assert args == withHeaders + bodyFlags;
      assert prefix == FixedFlags + ["-X", r.verb];
      AppendAssoc(FixedFlags, ["-X", r.verb], HeadersFlags(r.headers));
      AppendAssoc(FixedFlags, ["-X", r.verb] + HeadersFlags(r.headers), bodyFlags);
      assert args == FixedFlags + RequestFlags(request);
    }
    ghost var flags := args;
    args := args + [pathsPath];
    args := args + [hostsPath];
    args := args + [outPath];
    assert args == flags + [pathsPath, hostsPath, outPath];
  }

  /** A header as the prober receives it: its `name: value` text and whether raw mode precedes it. */
  datatype HeaderFlag = HeaderFlag(raw: bool, text: string)

  /** The headers that are passed on, in order: overrides with `{host}` are left out. */
  function KeptHeaders(headers: seq<Header>): seq<HeaderFlag> {
    if headers == [] then []
    else
      var h := headers[0];
      (if Dropped(h) then [] else [HeaderFlag(OverridesHost(h.name), HeaderText(h))]) + KeptHeaders(headers[1..])
  }

  /**
   * How a reader of the argument vector takes the header flags apart from the front:
   * `--rawhttp -H text` or `-H text`, nothing else.
   */
  function ParseHeaderFlags(tokens: seq<string>): Option<seq<HeaderFlag>> {
    if tokens == [] then Some([])
    else if |tokens| >= 3 && tokens[0] == "--rawhttp" && tokens[1] == "-H" then
      match ParseHeaderFlags(tokens[3..])
      case None => None
      case Some(rest) => Some([HeaderFlag(true, tokens[2])] + rest)
    else if |tokens| >= 2 && tokens[0] == "-H" then
      match ParseHeaderFlags(tokens[2..])
      case None => None
      case Some(rest) => Some([HeaderFlag(false, tokens[1])] + rest)
    else None
  }

  /**
   * The header flags read back give exactly the kept headers, in order, each marked raw
   * precisely when it overrides `Host` or `User-Agent`.
   */
  lemma {:induction false} HeaderFlagsRoundTrip(headers: seq<Header>)
    ensures ParseHeaderFlags(HeadersFlags(headers)) == Some(KeptHeaders(headers))
  {
    if headers != [] {
      var h := headers[0];
      var rest := HeadersFlags(headers[1..]);
      HeaderFlagsRoundTrip(headers[1..]);
      var tokens := HeaderFlags(h) + rest;
      assert HeadersFlags(headers) == tokens;
      if Dropped(h) {
        assert tokens == rest;
        assert KeptHeaders(headers) == KeptHeaders(headers[1..]);
      } else if OverridesHost(h.name) {
        assert tokens[..3] == ["--rawhttp", "-H", HeaderText(h)];
        assert tokens[3..] == rest;
        assert KeptHeaders(headers) == [HeaderFlag(true, HeaderText(h))] + KeptHeaders(headers[1..]);
      } else {
        assert tokens[..2] == ["-H", HeaderText(h)];
        assert tokens[2..] == rest;
        assert KeptHeaders(headers) == [HeaderFlag(false, HeaderText(h))] + KeptHeaders(headers[1..]);
      }
    }
  }

  // ---------------------------------------------------------------- progress

  /** `(100*cur)/count` with Go's integer division (both operands are non-negative here). */
  function Percent(cur: nat, count: nat): int
    requires count > 0
  {
    (100 * cur) / count
  }

  /** The percentages reported for the first `n` lines of prober output. */
  function ProgressSeries(n: nat, count: nat): seq<int>
    requires count > 0
  {
    seq(n, k requires 0 <= k < n => Percent(k + 1, count))
  }

  /** The progress updates sent, or the division by zero the source panics with. */
  datatype Progress = Reported(percents: seq<int>) | DivideByZero

  /** The progress of `n` output lines over `count` domains. */
  function ProgressFor(n: nat, count: nat): Progress {
    if count > 0 then Reported(ProgressSeries(n, count))
    else if n == 0 then Reported([])
    else DivideByZero
  }

  /**
   * The loop over the prober's output lines: every line bumps `cur` and reports
   * `(100*cur)/count`. With no matched domains the first line divides by zero.
   */
  method StreamProgress(stdout: seq<string>, count: nat) returns (progress: Progress)
    ensures progress == ProgressFor(|stdout|, count)
    ensures progress.DivideByZero? <==> count == 0 && |stdout| > 0
    ensures progress.Reported? ==> |progress.percents| == |stdout|
    ensures progress.Reported? ==> forall k :: 0 <= k < |stdout| ==> progress.percents[k] == (100 * (k + 1)) / count
  {
    var percents: seq<int> := [];
    var cur := 0;
    while cur < |stdout|
      invariant 0 <= cur <= |stdout|
      invariant |percents| == cur
      invariant count == 0 ==> cur == 0
      invariant count > 0 ==> forall k :: 0 <= k < cur ==> percents[k] == Percent(k + 1, count)
    {
      cur := cur + 1;
      if count == 0 {
        return DivideByZero;
      }
      percents := percents + [(100 * cur) / count];
    }
    progress := Reported(percents);
  }

  /** Division by a positive number keeps the order of its dividends. */
  lemma DivMonotone(a: nat, b: nat, c: nat)
    requires a <= b && c > 0
    ensures a / c <= b / c
  {
    DivAtMost(b, c, b / c);
    DivAtMost(a, c, b / c);
  }

  /** Multiplying by a non-negative number keeps order. */
  lemma MulMonotone(c: nat, a: nat, b: nat)
    requires a <= b
    ensures c * a <= c * b
  {
  }

  /** A quotient is at most `m` exactly when the dividend is below `(m + 1) * c`. */
  lemma DivAtMost(x: nat, c: nat, m: nat)
    requires c > 0
    ensures x / c <= m <==> x < c * (m + 1)
  {
    var q, r := x / c, x % c;
    assert x == c * q + r && 0 <= r < c;
    if q <= m {
      MulMonotone(c, q + 1, m + 1);
      assert c * (q + 1) == c * q + c;
    } else {
      MulMonotone(c, m + 1, q);
    }
  }

  /** Progress never goes down: a later line never reports less than an earlier one. */
  lemma ProgressMonotone(n: nat, count: nat, i: nat, j: nat)
    requires count > 0 && i <= j < n
    ensures ProgressSeries(n, count)[i] <= ProgressSeries(n, count)[j]
  {
    DivMonotone(100 * (i + 1), 100 * (j + 1), count);
  }

  /**
   * Progress is never negative, is 100 at line `count`, and stays at most 100 exactly
   * while `100 * cur < 101 * count`: nothing caps it when the prober prints more lines
   * than there are domains.
   */
  lemma PercentBounds(cur: nat, count: nat)
    requires count > 0
    ensures Percent(cur, count) >= 0
    ensures cur == count ==> Percent(cur, count) == 100
    ensures cur <= count ==> Percent(cur, count) <= 100
    ensures Percent(cur, count) <= 100 <==> 100 * cur < 101 * count
  {
    DivAtMost(100 * cur, count, 100);
    DivAtMost(100 * cur, count, 99);
    assert count * 101 == 101 * count && count * 100 == 100 * count;
  }

  // ---------------------------------------------------------------- end of stream

  /** How the prober's output stream ended: past the deadline, and the scanner's read error if any. */
  datatype StreamEnd = StreamEnd(deadlineExceeded: bool, readError: Option<string>)

  datatype Verdict = Proceed | Fatal(error: string)

  /**
   * After the output stream ends: a run past its deadline always proceeds to the captured
   * results; otherwise a read error is fatal.
   */
  function AfterStream(end: StreamEnd): (v: Verdict)
    ensures v.Proceed? <==> end.deadlineExceeded || end.readError.None?
    ensures v.Fatal? ==> end.readError == Some(v.error)
  {
    if end.deadlineExceeded then Proceed
    else match end.readError
      case None => Proceed
      case Some(e) => Fatal(e)
  }
}
