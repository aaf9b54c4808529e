/**
 * `parse_exceptionlist` in FailoverLib.py: each line of the exception list names a site,
 * optionally prefixed with an action (`+` add, `-` remove), followed by host tokens
 * prefixed `+` (monitoring view) or `-` (worker-node view). A line with any unprefixed
 * host token is rejected as a whole.
 */
module FailoverExceptions {
  import opened Results
  import opened PyText

  /** A row of the monitoring or the worker-node view. */
  datatype SiteHost = SiteHost(site: string, host: string)

  /** A row of the action series, `Site -> Action`. */
  datatype SiteAction = SiteAction(site: string, action: char)

  /** The three lists the parse accumulates. */
  datatype ExceptionViews = ExceptionViews(
    actions: seq<SiteAction>,
    workernode: seq<SiteHost>,
    monitoring: seq<SiteHost>)

  const NoViews := ExceptionViews([], [], [])

  /** Length of the leading run of characters that are not line breaks. */
  function LineLength(s: string): (n: nat)
    ensures n <= |s|
    ensures forall i :: 0 <= i < n ==> s[i] != '\n' && s[i] != '\r'
    ensures n < |s| ==> s[n] == '\n' || s[n] == '\r'
  {
    if s == [] || s[0] == '\n' || s[0] == '\r' then 0 else 1 + LineLength(s[1..])
  }

  /** `s.splitlines()` on a byte string: breaks at `\n`, `\r` and `\r\n`; no empty line after a final break. */
  function SplitLines(s: string): (r: seq<string>)
    ensures forall i :: 0 <= i < |r| ==> '\n' !in r[i] && '\r' !in r[i]
    decreases |s|
  {
    if s == [] then []
    else
      var n := LineLength(s);
      if n == |s| then [s]
      else
        var brk := if s[n] == '\r' && n + 1 < |s| && s[n + 1] == '\n' then 2 else 1;
        [s[..n]] + SplitLines(s[n + brk..])
  }

  /** `[h[1:] for h in hosts if h[0] == prefix]`. */
  function Prefixed(hosts: seq<string>, prefix: char): (r: seq<string>)
    ensures |r| <= |hosts|
  {
    if hosts == [] then []
    else
      var rest := Prefixed(hosts[1..], prefix);
      if |hosts[0]| > 0 && hosts[0][0] == prefix then [hosts[0][1..]] + rest else rest
  }

  predicate HasPrefix(h: string) { |h| > 0 && (h[0] == '+' || h[0] == '-') }

  /** What one line of the list amounts to. */
  datatype LineOutcome =
    | Skipped                                  // empty or a `#` comment
    | Incomplete(site: string)                 // some host token has no prefix: the line is ignored
    | Parsed(site: string, action: char, monitoring: seq<string>, workernode: seq<string>)

  /** The sign characters `strip('+-')` removes from the ends of the site token. */
  const Signs: set<char> := {'+', '-'}

  /**
   * One iteration of the loop in `parse_exceptionlist`. A line of blanks only has no
   * tokens, and `elements[0]` raises IndexError.
   */
  function ParseLine(line: string): (r: Result<LineOutcome>)
    ensures (line == [] || line[0] == '#') <==> r == Success(Skipped)
    ensures r.Failure? <==> line != [] && line[0] != '#' && Words(line) == []
    ensures r.Success? && r.value.Parsed? ==>
      && r.value.site == Strip(Words(line)[0], Signs)
      && r.value.action == Words(line)[0][0]
      && (forall h :: h in Words(line)[1..] ==> HasPrefix(h))
    ensures line != [] && line[0] != '#' && Words(line) != [] && (forall h :: h in Words(line)[1..] ==> HasPrefix(h)) ==>
      r == Success(Parsed(Strip(Words(line)[0], Signs), Words(line)[0][0],
                          Prefixed(Words(line)[1..], '+'), Prefixed(Words(line)[1..], '-')))
  {
    if line == [] || line[0] == '#' then Success(Skipped)
    else
      var elements := Words(line);
      if elements == [] then Failure(IndexError("elements[0]"))
      else
        assert IsWord(elements[0]);
        var site := Strip(elements[0], Signs);
        var action := elements[0][0];
        var hosts := elements[1..];
        var mon := Prefixed(hosts, '+');
        var wn := Prefixed(hosts, '-');
        AllPrefixedIffCountsAddUp(hosts);
        if |hosts| != |mon| + |wn| then
          Success(Incomplete(site))
        else
          Success(Parsed(site, action, mon, wn))
  }

  /**
   * The length check of `parse_exceptionlist` is exact: the `+` and `-` lists together are
   * as long as the host tokens precisely when every token carries a `+` or `-` prefix.
   */
  lemma {:induction false} AllPrefixedIffCountsAddUp(hosts: seq<string>)
    ensures |Prefixed(hosts, '+')| + |Prefixed(hosts, '-')| == |hosts| <==> forall h :: h in hosts ==> HasPrefix(h)
  {
    if hosts != [] {
      AllPrefixedIffCountsAddUp(hosts[1..]);
      CountsBounded(hosts[1..]);
      assert hosts[0] in hosts;
      assert forall h :: h in hosts[1..] ==> h in hosts;
      assert forall h :: h in hosts ==> h == hosts[0] || h in hosts[1..];
    }
  }

  lemma {:induction false} CountsBounded(hosts: seq<string>)
    ensures |Prefixed(hosts, '+')| + |Prefixed(hosts, '-')| <= |hosts|
  {
    if hosts != [] {
      CountsBounded(hosts[1..]);
    }
  }

  /** Every host of a prefixed list is a token of the line with its first character removed. */
  lemma {:induction false} PrefixedProvenance(hosts: seq<string>, prefix: char)
    ensures forall x :: x in Prefixed(hosts, prefix) ==> exists h :: h in hosts && |h| > 0 && h[0] == prefix && x == h[1..]
  {
    if hosts != [] {
      PrefixedProvenance(hosts[1..], prefix);
      assert hosts[0] in hosts;
      assert forall h :: h in hosts[1..] ==> h in hosts;
    }
  }

  /** A token `+h` always lands in the monitoring list as `h`, and `-h` in the worker-node list. */
  lemma {:induction false} PrefixedComplete(hosts: seq<string>, prefix: char)
    ensures forall h :: h in hosts && |h| > 0 && h[0] == prefix ==> h[1..] in Prefixed(hosts, prefix)
  {
    if hosts != [] {
      PrefixedComplete(hosts[1..], prefix);
      assert forall h :: h in hosts ==> h == hosts[0] || h in hosts[1..];
    }
  }

  /** The rows `[(site, h) for h in hosts]`, one per host, in order. */
  function HostRows(site: string, hosts: seq<string>): (r: seq<SiteHost>)
    ensures |r| == |hosts|
    ensures forall i :: 0 <= i < |r| ==> r[i].site == site && r[i].host == hosts[i]
    ensures forall x :: x in r <==> x.site == site && x.host in hosts
  {
    seq(|hosts|, i requires 0 <= i < |hosts| => SiteHost(site, hosts[i]))
  }

  /** The monitoring view for `+`, the worker-node view for `-`. */
  function View(views: ExceptionViews, prefix: char): seq<SiteHost>
  {
    if prefix == '+' then views.monitoring else views.workernode
  }

  /** The hosts of an accepted line that carried `prefix`, prefix removed. */
  function OutcomeHosts(outcome: LineOutcome, prefix: char): seq<string>
    requires outcome.Parsed?
  {
    if prefix == '+' then outcome.monitoring else outcome.workernode
  }

  /** The rows one outcome appends to the three lists. */
  function Apply(views: ExceptionViews, outcome: LineOutcome): (r: ExceptionViews)
    ensures !outcome.Parsed? ==> r == views
    ensures outcome.Parsed? ==>
      && r.monitoring == views.monitoring + HostRows(outcome.site, outcome.monitoring)
      && r.workernode == views.workernode + HostRows(outcome.site, outcome.workernode)
      && (r.actions == views.actions + [SiteAction(outcome.site, outcome.action)]
          <==> outcome.action == '+' || outcome.action == '-')
      && (r.actions == views.actions <==> outcome.action != '+' && outcome.action != '-')
  {
    match outcome
    case Parsed(site, action, mon, wn) =>
      var monRows := HostRows(site, mon);
      var wnRows := HostRows(site, wn);
      var actions := if action == '+' || action == '-' then views.actions + [SiteAction(site, action)] else views.actions;
      assert |views.actions + [SiteAction(site, action)]| != |views.actions|;
      ExceptionViews(actions, views.workernode + wnRows, views.monitoring + monRows)
    case _ => views
  }

  /** The lists after the lines from `lines` onwards, starting from `views`; the first IndexError stops the parse. */
  function ParseLinesFrom(views: ExceptionViews, lines: seq<string>): Result<ExceptionViews>
    decreases |lines|
  {
    if lines == [] then Success(views)
    else
      match StepLine(views, lines[0])
      case Failure(e) => Failure(e)
      case Success(next) => ParseLinesFrom(next, lines[1..])
  }

  /** The lists after one more line. */
  function StepLine(views: ExceptionViews, line: string): Result<ExceptionViews>
  {
    match ParseLine(line)
    case Failure(e) => Failure(e)
    case Success(outcome) => Success(Apply(views, outcome))
  }

  /**
   * What `parse_exceptionlist` returns. With no action at all the action frame has no
   * `Site` column, and `set_index('Site')` raises KeyError.
   */
  function ExceptionList(data: string): Result<ExceptionViews>
  {
    match ParseLinesFrom(NoViews, SplitLines(data))
    case Failure(e) => Failure(e)
    case Success(views) =>
      if views.actions == [] then Failure(KeyError("Site")) else Success(views)
  }

  /** The body of the loop in `parse_exceptionlist`: classify one line and append its rows. */
  method AppendLine(views: ExceptionViews, line: string) returns (r: Result<ExceptionViews>)
    ensures r == StepLine(views, line)
  {
    if line == [] || line[0] == '#' {
      return Success(views);
    }
    var elements := Words(line);
    if elements == [] {
      return Failure(IndexError("elements[0]"));
    }
    assert IsWord(elements[0]);
    var site := Strip(elements[0], Signs);
    var action := elements[0][0];
    var hosts := elements[1..];
    var monitoringHosts := Prefixed(hosts, '+');
    var workernodeHosts := Prefixed(hosts, '-');
    if |hosts| != |monitoringHosts| + |workernodeHosts| {
      return Success(views);
    }
    var siteMonitoringView := views.monitoring;
    for k := 0 to |monitoringHosts|
      invariant siteMonitoringView == views.monitoring + seq(k, j requires 0 <= j < k => SiteHost(site, monitoringHosts[j]))
    {
      siteMonitoringView := siteMonitoringView + [SiteHost(site, monitoringHosts[k])];
    }
    var siteWorkerNodeView := views.workernode;
    for k := 0 to |workernodeHosts|
      invariant siteWorkerNodeView == views.workernode + seq(k, j requires 0 <= j < k => SiteHost(site, workernodeHosts[j]))
    {
      siteWorkerNodeView := siteWorkerNodeView + [SiteHost(site, workernodeHosts[k])];
    }
    var siteAction := views.actions;
    if action == '+' || action == '-' {
      siteAction := siteAction + [SiteAction(site, action)];
    }
    assert ParseLine(line) == Success(Parsed(site, action, monitoringHosts, workernodeHosts));
    assert siteMonitoringView == views.monitoring + HostRows(site, monitoringHosts);
    assert siteWorkerNodeView == views.workernode + HostRows(site, workernodeHosts);
    return Success(ExceptionViews(siteAction, siteWorkerNodeView, siteMonitoringView));
  }

  /** `parse_exceptionlist`: one pass over the lines, appending to the three lists. */
  method ParseExceptionList(data: string) returns (r: Result<ExceptionViews>)
    ensures r == ExceptionList(data)
  {
    var lines := SplitLines(data);
    var views := NoViews;
    var i := 0;
    while i < |lines|
      invariant 0 <= i <= |lines|
      invariant ParseLinesFrom(views, lines[i..]) == ParseLinesFrom(NoViews, lines)
    {
      assert lines[i..][1..] == lines[i + 1..];
      var next := AppendLine(views, lines[i]);
      if next.Failure? {
        return Failure(next.error);
      }
      views := next.value;
      i := i + 1;
    }
    assert lines[i..] == [];
    if views.actions == [] {
      return Failure(KeyError("Site"));
    }
    return Success(views);
  }

  /** Lines that are empty or start with `#` leave every list as it was. */
  lemma SkippedLineChangesNothing(views: ExceptionViews, line: string, rest: seq<string>)
    requires line == [] || line[0] == '#'
    ensures ParseLinesFrom(views, [line] + rest) == ParseLinesFrom(views, rest)
  {
    assert ([line] + rest)[1..] == rest;
  }

  /** A line with an unprefixed host token contributes no host and no action, even if others are prefixed. */
  lemma IncompleteLineChangesNothing(views: ExceptionViews, line: string, rest: seq<string>)
    requires line != [] && line[0] != '#' && Words(line) != []
    requires exists h :: h in Words(line)[1..] && !HasPrefix(h)
    ensures ParseLinesFrom(views, [line] + rest) == ParseLinesFrom(views, rest)
  {
    assert ([line] + rest)[1..] == rest;
    assert ParseLine(line).value.Incomplete?;
  }

  /** On an accepted line, every host token lands in exactly one view, prefix removed. */
  lemma ParsedLinePartitionsHosts(line: string)
    requires ParseLine(line).Success? && ParseLine(line).value.Parsed?
    ensures var o := ParseLine(line).value;
      var hosts := Words(line)[1..];
      && |o.monitoring| + |o.workernode| == |hosts|
      && (forall h :: h in hosts && h[0] == '+' ==> h[1..] in o.monitoring)
      && (forall h :: h in hosts && h[0] == '-' ==> h[1..] in o.workernode)
      && (forall x :: x in o.monitoring ==> exists h :: h in hosts && h[0] == '+' && x == h[1..])
      && (forall x :: x in o.workernode ==> exists h :: h in hosts && h[0] == '-' && x == h[1..])
  {
    var hosts := Words(line)[1..];
    AllPrefixedIffCountsAddUp(hosts);
    PrefixedComplete(hosts, '+');
    PrefixedComplete(hosts, '-');
    PrefixedProvenance(hosts, '+');
    PrefixedProvenance(hosts, '-');
  }

  /**
   * `x` is a row an accepted line contributes to the `prefix` view: the line's site with a
   * host token `prefix + x.host`.
   */
  predicate TokenRow(line: string, prefix: char, x: SiteHost)
  {
    var o := ParseLine(line);
    && o.Success? && o.value.Parsed? && x.site == o.value.site
    && exists h :: h in Words(line)[1..] && |h| > 0 && h[0] == prefix && x.host == h[1..]
  }

  /** The rows one line adds to a view are exactly the rows its tokens with that prefix name. */
  lemma ApplyLineRows(views: ExceptionViews, line: string, prefix: char)
    requires prefix in Signs && ParseLine(line).Success?
    ensures var v := View(Apply(views, ParseLine(line).value), prefix);
      && View(views, prefix) <= v
      && forall x :: x in v <==> x in View(views, prefix) || TokenRow(line, prefix, x)
  {
    var o := ParseLine(line).value;
    if o.Parsed? {
      var hosts := Words(line)[1..];
      PrefixedComplete(hosts, prefix);
      PrefixedProvenance(hosts, prefix);
      assert OutcomeHosts(o, prefix) == Prefixed(hosts, prefix);
    }
  }

  /** Rows already in a view stay there, at the front, while later lines are parsed. */
  lemma {:induction false} ViewPrefixKept(views: ExceptionViews, lines: seq<string>, prefix: char)
    requires prefix in Signs && ParseLinesFrom(views, lines).Success?
    ensures View(views, prefix) <= View(ParseLinesFrom(views, lines).value, prefix)
    decreases |lines|
  {
    if lines != [] {
      var next := Apply(views, ParseLine(lines[0]).value);
      ApplyLineRows(views, lines[0], prefix);
      ViewPrefixKept(next, lines[1..], prefix);
    }
  }

  /** Every `+h` / `-h` token of an accepted line lands in its view as `(site, h)`. */
  lemma {:induction false} TokenRowsReachView(views: ExceptionViews, lines: seq<string>, prefix: char)
    requires prefix in Signs && ParseLinesFrom(views, lines).Success?
    ensures forall line, x :: line in lines && TokenRow(line, prefix, x) ==>
      x in View(ParseLinesFrom(views, lines).value, prefix)
    decreases |lines|
  {
    if lines != [] {
      var next := Apply(views, ParseLine(lines[0]).value);
      ApplyLineRows(views, lines[0], prefix);
      ViewPrefixKept(next, lines[1..], prefix);
      TokenRowsReachView(next, lines[1..], prefix);
      assert forall line :: line in lines ==> line == lines[0] || line in lines[1..];
    }
  }

  /** Every row of a view was there at the start or comes from a token of an accepted line. */
  lemma {:induction false} ViewRowsFromTokens(views: ExceptionViews, lines: seq<string>, prefix: char)
    requires prefix in Signs && ParseLinesFrom(views, lines).Success?
    ensures forall x :: x in View(ParseLinesFrom(views, lines).value, prefix) ==>
      x in View(views, prefix) || exists line :: line in lines && TokenRow(line, prefix, x)
    decreases |lines|
  {
    if lines != [] {
      var next := Apply(views, ParseLine(lines[0]).value);
      ApplyLineRows(views, lines[0], prefix);
      ViewRowsFromTokens(next, lines[1..], prefix);
      assert forall line :: line in lines[1..] ==> line in lines;
      assert lines[0] in lines;
    }
  }

  /**
   * The views `parse_exceptionlist` returns: `(site, h)` is in the monitoring view exactly
   * when some accepted line of the site carries the token `+h`, and in the worker-node view
   * exactly when one carries `-h`.
   */
  lemma ExceptionListRows(data: string, prefix: char)
    requires prefix in Signs && ExceptionList(data).Success?
    ensures forall x :: x in View(ExceptionList(data).value, prefix) <==>
      exists line :: line in SplitLines(data) && TokenRow(line, prefix, x)
  {
    TokenRowsReachView(NoViews, SplitLines(data), prefix);
    ViewRowsFromTokens(NoViews, SplitLines(data), prefix);
  }

  /** Every recorded action is `+` or `-`, and the site it names has no sign at either end. */
  lemma {:induction false} ActionsAreSigns(views: ExceptionViews, lines: seq<string>)
    requires forall a :: a in views.actions ==> a.action in Signs
    ensures var r := ParseLinesFrom(views, lines);
      r.Success? ==> forall a :: a in r.value.actions ==> a.action in Signs
    decreases |lines|
  {
    if lines != [] {
      var o := ParseLine(lines[0]);
      if o.Success? {
        ActionsAreSigns(Apply(views, o.value), lines[1..]);
      }
    }
  }

  /** Splitting a text with no line break gives that one line. */
  lemma SplitLinesSingle(s: string)
    requires s != [] && '\n' !in s && '\r' !in s
    ensures SplitLines(s) == [s]
  {
  }

  lemma {:induction false} LineLengthAppend(a: string, rest: string)
    requires '\n' !in a && '\r' !in a
    ensures LineLength(a + rest) == |a| + LineLength(rest)
  {
    if a != [] {
      assert (a + rest)[1..] == a[1..] + rest;
      assert a[0] in a;
      LineLengthAppend(a[1..], rest);
    } else {
      assert a + rest == rest;
    }
  }

  /** Two lines joined by `\r\n` split back into those two lines. */
  lemma SplitLinesCrLf(a: string, b: string)
    requires '\n' !in a && '\r' !in a && b != [] && '\n' !in b && '\r' !in b
    ensures SplitLines(a + "\r\n" + b) == [a, b]
  {
    var s := a + "\r\n" + b;
    LineLengthAppend(a, "\r\n" + b);
    assert s[..|a|] == a;
    assert s[|a|] == '\r' && s[|a| + 1] == '\n';
    assert s[|a| + 2..] == b;
    SplitLinesSingle(b);
    assert SplitLines(s) == [a] + SplitLines(b);
  }
}
