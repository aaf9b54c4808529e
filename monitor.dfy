/**
 * The hourly traffic check of hourly-monitor.py: per-host hit deltas between two
 * aggregated AWStats snapshots (`compute_traffic_delta`), the squid and institution
 * tagging of `main`, and the detection of institutions whose direct (non-squid)
 * request rate exceeds the threshold (`excess_failover_check`).
 *
 * pandas tables are sequences of records, one per row, in index order. Rates are
 * exact `real`s. Clock readings are epoch seconds passed in as integers; the GeoIP
 * organisation lookup is an injected function.
 */
module HourlyMonitor {
  import opened Results
  import opened StrOrder
  import opened FailoverTopology

  /** One row of the aggregated AWStats table, indexed by `Host`. */
  datatype Sample = Sample(host: string, hits: int, bandwidth: int)

  /** A saved table with the epoch second it was taken at (`/tmp/last_stats.csv`). */
  datatype Snapshot = Snapshot(epoch: int, rows: seq<Sample>)

  /** A row after `compute_traffic_delta`: the `Change` column sits right after `Hits`. */
  datatype ChangeRow = ChangeRow(host: string, hits: int, change: real, bandwidth: int)

  /** A row after `main` added `IsSquid` in front and `Institution` at the end. */
  datatype TaggedRow = TaggedRow(isSquid: bool, host: string, hits: int, change: real, bandwidth: int, institution: string)

  /** One row of the squid table `build_squids_list` returns. */
  datatype Squid = Squid(host: string, alias: string)

  /** One row of `insti_traffic`: the summed `Change` and `Bandwidth` of an institution. */
  datatype InstitutionTraffic = InstitutionTraffic(institution: string, change: real, bandwidth: int)

  /**
   * One row of `offending`. `host` is None where the alias lookup found no squid
   * (pandas puts NaN there).
   */
  datatype OffendingRow = OffendingRow(institution: string, isSquid: bool, host: Option<string>, hits: int, change: real, bandwidth: int)

  /** `10e3/3600`: ten thousand requests per hour, in requests per second. */
  const SiteRateThreshold: real := 10000.0 / 3600.0

  // ---------------------------------------------------------------------------
  // compute_traffic_delta
  // ---------------------------------------------------------------------------

  /** `last_stats['Hits']` at `host`, or None where the host is missing (NaN after alignment). */
  function LastHits(last: seq<Sample>, host: string): (r: Option<int>)
    ensures r.None? <==> forall s :: s in last ==> s.host != host
    ensures r.Some? ==> exists s :: s in last && s.host == host && s.hits == r.value
  {
    if last == [] then None
    else if last[0].host == host then Some(last[0].hits)
    else
      assert forall s :: s in last <==> s == last[0] || s in last[1..];
      LastHits(last[1..], host)
  }

  /** `(now_stats['Hits'] - last_stats['Hits']).fillna(now_stats['Hits'])` at one host. */
  function HitsDelta(s: Sample, last: seq<Sample>): int
  {
    match LastHits(last, s.host)
    case None => s.hits
    case Some(h) => s.hits - h
  }

  /**
   * `compute_traffic_delta`: every row of the current table, unchanged, with the
   * hit delta divided by the elapsed seconds as `Change`. Rows of hosts seen only in
   * the last table are not produced.
   */
  function ComputeTrafficDelta(now: seq<Sample>, last: seq<Sample>, nowEpoch: int, lastEpoch: int): (r: seq<ChangeRow>)
    requires nowEpoch != lastEpoch
    ensures |r| == |now|
    ensures forall i :: 0 <= i < |r| ==>
      r[i].host == now[i].host && r[i].hits == now[i].hits && r[i].bandwidth == now[i].bandwidth
    ensures forall i :: 0 <= i < |r| ==> r[i].change * (nowEpoch - lastEpoch) as real == HitsDelta(now[i], last) as real
  {
    var elapsed := (nowEpoch - lastEpoch) as real;
    seq(|now|, i requires 0 <= i < |now| => ChangeRow(now[i].host, now[i].hits, HitsDelta(now[i], last) as real / elapsed, now[i].bandwidth))
  }

  /** The hosts of a table have distinct names (the index `groupby(level=0)` produces). */
  predicate DistinctHosts(rows: seq<Sample>)
  {
    forall i, j :: 0 <= i < j < |rows| ==> rows[i].host != rows[j].host
  }

  lemma LastHitsOfDistinct(last: seq<Sample>, k: nat)
    requires DistinctHosts(last) && k < |last|
    ensures LastHits(last, last[k].host) == Some(last[k].hits)
  {
    if k > 0 {
      assert last[0].host != last[k].host;
      assert last[1..][k - 1] == last[k];
      LastHitsOfDistinct(last[1..], k - 1);
    }
  }

  /**
   * A host in both tables changes by the difference of its hit counts, which is not
   * clamped: a counter that went down gives a negative `Change`.
   */
  lemma DeltaOfKnownHost(now: seq<Sample>, last: seq<Sample>, nowEpoch: int, lastEpoch: int, i: nat, k: nat)
    requires nowEpoch != lastEpoch && DistinctHosts(last)
    requires i < |now| && k < |last| && last[k].host == now[i].host
    ensures ComputeTrafficDelta(now, last, nowEpoch, lastEpoch)[i].change * (nowEpoch - lastEpoch) as real
      == (now[i].hits - last[k].hits) as real
  {
    LastHitsOfDistinct(last, k);
  }

  /** A host absent from the last table changes by its whole hit count, not by zero. */
  lemma DeltaOfNewHost(now: seq<Sample>, last: seq<Sample>, nowEpoch: int, lastEpoch: int, i: nat)
    requires nowEpoch != lastEpoch && i < |now|
    requires forall s :: s in last ==> s.host != now[i].host
    ensures ComputeTrafficDelta(now, last, nowEpoch, lastEpoch)[i].change * (nowEpoch - lastEpoch) as real
      == now[i].hits as real
  {
  }

  /** Hosts that are gone from the current table are not reported. */
  lemma DeltaRowsAreCurrentHosts(now: seq<Sample>, last: seq<Sample>, nowEpoch: int, lastEpoch: int, host: string)
    requires nowEpoch != lastEpoch
    requires forall s :: s in now ==> s.host != host
    ensures forall c :: c in ComputeTrafficDelta(now, last, nowEpoch, lastEpoch) ==> c.host != host
  {
    var r := ComputeTrafficDelta(now, last, nowEpoch, lastEpoch);
    forall c | c in r ensures c.host != host {
      var i :| 0 <= i < |r| && r[i] == c;
      assert now[i] in now;
    }
  }

  /** With `A` at 100 hits before and 150 now, and a new `B` at 30, after 100 seconds: 0.5 and 0.3. */
  lemma DeltaExample()
    ensures var r := ComputeTrafficDelta([Sample("A", 150, 0), Sample("B", 30, 0)], [Sample("A", 100, 0)], 1100, 1000);
      |r| == 2 && r[0].change == 0.5 && r[1].change == 0.3
  {
    var now := [Sample("A", 150, 0), Sample("B", 30, 0)];
    var last := [Sample("A", 100, 0)];
    assert LastHits(last, "A") == Some(100);
    assert "B" != "A";
    assert LastHits(last, "B") == None;
  }

  // ---------------------------------------------------------------------------
  // The IsSquid and Institution columns of main
  // ---------------------------------------------------------------------------

  /**
   * `awdata.insert(0, 'IsSquid', awdata.index.isin(squids.Host))` followed by
   * `add_institutions`, which looks every host up in GeoIP.
   */
  function TagRows(rows: seq<ChangeRow>, squids: seq<Squid>, isp: string -> string): (r: seq<TaggedRow>)
    ensures |r| == |rows|
    ensures forall i :: 0 <= i < |r| ==>
      && (r[i].isSquid <==> exists s :: s in squids && s.host == rows[i].host)
      && r[i].institution == isp(rows[i].host)
      && r[i].host == rows[i].host && r[i].hits == rows[i].hits
      && r[i].change == rows[i].change && r[i].bandwidth == rows[i].bandwidth
  {
    seq(|rows|, i requires 0 <= i < |rows| =>
      TaggedRow(exists s :: s in squids && s.host == rows[i].host, rows[i].host, rows[i].hits,
        rows[i].change, rows[i].bandwidth, isp(rows[i].host)))
  }

  // ---------------------------------------------------------------------------
  // excess_failover_check
  // ---------------------------------------------------------------------------

  /** `awdata[~awdata.IsSquid]`. */
  function NonSquid(awdata: seq<TaggedRow>): (r: seq<TaggedRow>)
    ensures forall x :: x in r <==> x in awdata && !x.isSquid
  {
    Filter(awdata, (x: TaggedRow) => !x.isSquid)
  }

  /** The summed `Change` of the rows of one institution. */
  function ChangeSum(rows: seq<TaggedRow>, institution: string): real
  {
    if rows == [] then 0.0
    else (if rows[0].institution == institution then rows[0].change else 0.0) + ChangeSum(rows[1..], institution)
  }

  /** The summed `Bandwidth` of the rows of one institution. */
  function BandwidthSum(rows: seq<TaggedRow>, institution: string): int
  {
    if rows == [] then 0
    else (if rows[0].institution == institution then rows[0].bandwidth else 0) + BandwidthSum(rows[1..], institution)
  }

  /** The groups of `non_squid_stats.groupby('Institution')`, in the sorted order of the group keys. */
  function Groups(nonSquid: seq<TaggedRow>): (r: seq<string>)
    ensures StrictlySorted(r)
    ensures forall x :: x in r <==> exists row :: row in nonSquid && row.institution == x
  {
    SortedElems(set row | row in nonSquid :: row.institution)
  }

  /** An institution that has direct traffic and whose summed direct `Change` is strictly over the threshold. */
  predicate IsHigh(awdata: seq<TaggedRow>, threshold: real, institution: string)
  {
    && (exists row :: row in NonSquid(awdata) && row.institution == institution)
    && ChangeSum(NonSquid(awdata), institution) > threshold
  }

  function Names(ts: seq<InstitutionTraffic>): seq<string>
  {
    seq(|ts|, i requires 0 <= i < |ts| => ts[i].institution)
  }

  /** `insti_traffic[insti_traffic.Change > site_rate_threshold]` over the given groups. */
  function HighGroups(groups: seq<string>, nonSquid: seq<TaggedRow>, threshold: real): (r: seq<InstitutionTraffic>)
    ensures forall t :: t in r ==>
      && t.institution in groups && ChangeSum(nonSquid, t.institution) > threshold
      && t.change == ChangeSum(nonSquid, t.institution) && t.bandwidth == BandwidthSum(nonSquid, t.institution)
    ensures forall x :: x in groups && ChangeSum(nonSquid, x) > threshold ==> x in Names(r)
  {
    if groups == [] then []
    else
      var rest := HighGroups(groups[1..], nonSquid, threshold);
      var g := groups[0];
      assert forall x :: x in groups <==> x == g || x in groups[1..];
      if ChangeSum(nonSquid, g) > threshold then
        var r := [InstitutionTraffic(g, ChangeSum(nonSquid, g), BandwidthSum(nonSquid, g))] + rest;
        assert Names(r) == [g] + Names(rest);
        r
      else rest
  }

  /** Every name in the result is one of the groups. */
  lemma HighGroupsNames(groups: seq<string>, nonSquid: seq<TaggedRow>, threshold: real)
    ensures forall y :: y in Names(HighGroups(groups, nonSquid, threshold)) ==> y in groups
  {
    var r := HighGroups(groups, nonSquid, threshold);
    forall y | y in Names(r) ensures y in groups {
      var j :| 0 <= j < |Names(r)| && Names(r)[j] == y;
      assert r[j] in r;
    }
  }

  /** The groups over the threshold keep the order of the groups. */
  lemma {:induction false} HighGroupsSorted(groups: seq<string>, nonSquid: seq<TaggedRow>, threshold: real)
    requires StrictlySorted(groups)
    ensures StrictlySorted(Names(HighGroups(groups, nonSquid, threshold)))
    decreases |groups|
  {
    if groups != [] {
      var g := groups[0];
      var rest := HighGroups(groups[1..], nonSquid, threshold);
      SortedTail(groups);
      HighGroupsSorted(groups[1..], nonSquid, threshold);
      if ChangeSum(nonSquid, g) > threshold {
        var r := [InstitutionTraffic(g, ChangeSum(nonSquid, g), BandwidthSum(nonSquid, g))] + rest;
        assert Names(r) == [g] + Names(rest);
        HighGroupsNames(groups[1..], nonSquid, threshold);
        SortedCons(g, Names(rest));
      }
    }
  }

  /** `insti_high`: the institutions over the threshold, sorted, with their summed traffic. */
  function InstiHigh(awdata: seq<TaggedRow>, threshold: real): seq<InstitutionTraffic>
  {
    HighGroups(Groups(NonSquid(awdata)), NonSquid(awdata), threshold)
  }

  /** Every squid host appears once: the index `set_index('Host')` builds can be used to map. */
  predicate DistinctSquids(squids: seq<Squid>)
  {
    forall i, j :: 0 <= i < j < |squids| ==> squids[i].host != squids[j].host
  }

  /** `squids.set_index('Host')['Alias']` at one host; None for a host that is not a squid. */
  function AliasOf(squids: seq<Squid>, host: string): (r: Option<string>)
    ensures r.None? <==> forall s :: s in squids ==> s.host != host
    ensures r.Some? ==> Squid(host, r.value) in squids
  {
    if squids == [] then None
    else if squids[0].host == host then Some(squids[0].alias)
    else
      assert forall s :: s in squids <==> s == squids[0] || s in squids[1..];
      AliasOf(squids[1..], host)
  }

  /** One row of `offending`: squid rows show their alias instead of their host. */
  function Offending(row: TaggedRow, squids: seq<Squid>): OffendingRow
  {
    OffendingRow(row.institution, row.isSquid, if row.isSquid then AliasOf(squids, row.host) else Some(row.host),
      row.hits, row.change, row.bandwidth)
  }

  /** The three tables `excess_failover_check` returns. */
  datatype Check = Check(nonSquid: seq<TaggedRow>, instiHigh: seq<InstitutionTraffic>, offending: seq<OffendingRow>)

  /**
   * `excess_failover_check`. Mapping squid hosts to aliases through an index with
   * repeated hosts raises `InvalidIndexError`, whether or not a squid row is offending.
   */
  function ExcessFailoverCheck(awdata: seq<TaggedRow>, squids: seq<Squid>, threshold: real): (r: Result<Check>)
    ensures r.Failure? <==> !DistinctSquids(squids)
    ensures r.Success? ==> r.value.nonSquid == NonSquid(awdata) && r.value.instiHigh == InstiHigh(awdata, threshold)
  {
    var nonSquid := NonSquid(awdata);
    var instiHigh := InstiHigh(awdata, threshold);
    var hit := Filter(awdata, (x: TaggedRow) => x.institution in Names(instiHigh));
    if !DistinctSquids(squids) then Failure(InvalidIndexError)
    else Success(Check(nonSquid, instiHigh, seq(|hit|, i requires 0 <= i < |hit| => Offending(hit[i], squids))))
  }

  /**
   * `insti_high` lists, in sorted order, exactly the institutions with direct traffic
   * whose summed direct `Change` is strictly above the threshold, with their sums.
   */
  lemma InstiHighExact(awdata: seq<TaggedRow>, threshold: real)
    ensures StrictlySorted(Names(InstiHigh(awdata, threshold)))
    ensures forall x :: x in Names(InstiHigh(awdata, threshold)) <==> IsHigh(awdata, threshold, x)
    ensures forall t :: t in InstiHigh(awdata, threshold) ==>
      t.change == ChangeSum(NonSquid(awdata), t.institution) && t.bandwidth == BandwidthSum(NonSquid(awdata), t.institution)
  {
    var r := InstiHigh(awdata, threshold);
    HighGroupsSorted(Groups(NonSquid(awdata)), NonSquid(awdata), threshold);
    forall x ensures x in Names(r) <==> IsHigh(awdata, threshold, x) {
      if x in Names(r) {
        var i :| 0 <= i < |r| && Names(r)[i] == x;
        assert r[i] in r;
      }
    }
  }

  /** A group exactly at the threshold is not reported: the comparison is strict. */
  lemma ThresholdIsStrict(awdata: seq<TaggedRow>, institution: string)
    requires ChangeSum(NonSquid(awdata), institution) == SiteRateThreshold
    ensures institution !in Names(InstiHigh(awdata, SiteRateThreshold))
  {
    InstiHighExact(awdata, SiteRateThreshold);
  }

  lemma {:induction false} FilterAppend<T(!new)>(xs: seq<T>, ys: seq<T>, keep: T -> bool)
    ensures Filter(xs + ys, keep) == Filter(xs, keep) + Filter(ys, keep)
    decreases |xs|
  {
    if xs == [] {
      assert xs + ys == ys;
    } else {
      assert (xs + ys)[1..] == xs[1..] + ys;
      FilterAppend(xs[1..], ys, keep);
    }
  }

  lemma {:induction false} FilterNone<T(!new)>(xs: seq<T>, keep: T -> bool)
    requires forall x :: x in xs ==> !keep(x)
    ensures Filter(xs, keep) == []
    decreases |xs|
  {
    if xs != [] {
      assert xs[0] in xs;
      FilterNone(xs[1..], keep);
    }
  }

  /** Squid traffic never makes an institution high: adding squid rows leaves `insti_high` as it was. */
  lemma SquidRowsDoNotCount(awdata: seq<TaggedRow>, squidRows: seq<TaggedRow>, threshold: real)
    requires forall x :: x in squidRows ==> x.isSquid
    ensures InstiHigh(awdata + squidRows, threshold) == InstiHigh(awdata, threshold)
  {
    NonSquidIgnoresSquidRows(awdata, squidRows);
  }

  lemma NonSquidIgnoresSquidRows(awdata: seq<TaggedRow>, squidRows: seq<TaggedRow>)
    requires forall x :: x in squidRows ==> x.isSquid
    ensures NonSquid(awdata + squidRows) == NonSquid(awdata)
  {
    var keep := (x: TaggedRow) => !x.isSquid;
    FilterAppend(awdata, squidRows, keep);
    FilterNone(squidRows, keep);
    assert Filter(awdata, keep) + [] == Filter(awdata, keep);
  }

  /**
   * `offending` holds every row, squid or not, of a high institution, and nothing else;
   * squid rows carry their alias in place of their host.
   */
  lemma OffendingRowsExact(awdata: seq<TaggedRow>, squids: seq<Squid>, threshold: real)
    requires DistinctSquids(squids)
    ensures var offending := ExcessFailoverCheck(awdata, squids, threshold).value.offending;
      && (forall o :: o in offending ==> exists row :: row in awdata && IsHigh(awdata, threshold, row.institution) && o == Offending(row, squids))
      && (forall row :: row in awdata && IsHigh(awdata, threshold, row.institution) ==> Offending(row, squids) in offending)
  {
    InstiHighExact(awdata, threshold);
    var names := Names(InstiHigh(awdata, threshold));
    var hit := Filter(awdata, (x: TaggedRow) => x.institution in names);
    var offending := seq(|hit|, i requires 0 <= i < |hit| => Offending(hit[i], squids));
    assert ExcessFailoverCheck(awdata, squids, threshold).value.offending == offending;
    OffendingImage(hit, squids, offending);
    assert forall row :: row in hit <==> row in awdata && IsHigh(awdata, threshold, row.institution);
  }

  /** The rows shown are exactly the images of the rows picked. */
  lemma OffendingImage(hit: seq<TaggedRow>, squids: seq<Squid>, offending: seq<OffendingRow>)
    requires offending == seq(|hit|, i requires 0 <= i < |hit| => Offending(hit[i], squids))
    ensures forall o :: o in offending ==> exists row :: row in hit && o == Offending(row, squids)
    ensures forall row :: row in hit ==> Offending(row, squids) in offending
  {
    forall o | o in offending ensures exists row :: row in hit && o == Offending(row, squids) {
      var i :| 0 <= i < |offending| && offending[i] == o;
      assert hit[i] in hit;
    }
    forall row | row in hit ensures Offending(row, squids) in offending {
      var i :| 0 <= i < |hit| && hit[i] == row;
      assert offending[i] == Offending(row, squids);
    }
  }

  /** A squid row of `offending` shows the alias the squid table gives its host. */
  lemma OffendingSquidShowsAlias(row: TaggedRow, squids: seq<Squid>, alias: string)
    requires DistinctSquids(squids) && row.isSquid && Squid(row.host, alias) in squids
    ensures Offending(row, squids).host == Some(alias)
  {
    var r := AliasOf(squids, row.host);
    var i :| 0 <= i < |squids| && squids[i] == Squid(row.host, r.value);
    var j :| 0 <= j < |squids| && squids[j] == Squid(row.host, alias);
  }

  // ---------------------------------------------------------------------------
  // main
  // ---------------------------------------------------------------------------

  /** What a run of `main` decides: it stops after the first snapshot (exit 1) or reports (exit 0). */
  datatype Detection = FirstRun | Checked(check: Check)

  /** The snapshot `main` saves for the next run, and how it ends. */
  datatype Run = Run(saved: Snapshot, outcome: Result<Detection>)

  /** The exit status of a run that did not raise. */
  function ExitStatus(d: Detection): (code: int)
    ensures code == 1 <==> d.FirstRun?
    ensures code == 0 <==> d.Checked?
  {
    if d.FirstRun? then 1 else 0
  }

  /**
   * `main` as written: the current table is saved first; then `not last_awdata` is
   * True for None, but on a DataFrame pandas refuses to give a truth value and
   * raises `ValueError`.
   */
  function MainAsWritten(now: seq<Sample>, nowEpoch: int, last: Option<Snapshot>): Run
  {
    Run(Snapshot(nowEpoch, now),
      if last.None? then Success(FirstRun) else Failure(ValueError("The truth value of a DataFrame is ambiguous")))
  }

  /** As written, a run that finds a previous snapshot raises before any delta is computed: detection never happens. */
  lemma MainAsWrittenNeverChecks(now: seq<Sample>, nowEpoch: int, last: Option<Snapshot>)
    ensures MainAsWritten(now, nowEpoch, last).saved == Snapshot(nowEpoch, now)
    ensures last.None? ==> MainAsWritten(now, nowEpoch, last).outcome == Success(FirstRun)
    ensures last.Some? ==> MainAsWritten(now, nowEpoch, last).outcome.Failure?
    ensures !(MainAsWritten(now, nowEpoch, last).outcome.Success? && MainAsWritten(now, nowEpoch, last).outcome.value.Checked?)
  {
  }

  /**
   * `main` with the evidently intended test `last_awdata is None`: after saving the
   * current table, a first run stops; otherwise deltas are computed, rows tagged and
   * the excess check run.
   */
  function Main(now: seq<Sample>, nowEpoch: int, last: Option<Snapshot>, squids: seq<Squid>, isp: string -> string): (r: Run)
    requires last.Some? ==> last.value.epoch != nowEpoch
    ensures r.saved == Snapshot(nowEpoch, now)
    ensures r.outcome == Success(FirstRun) <==> last.None?
  {
    var saved := Snapshot(nowEpoch, now);
    match last
    case None => Run(saved, Success(FirstRun))
    case Some(previous) =>
      var awdata := TagRows(ComputeTrafficDelta(now, previous.rows, nowEpoch, previous.epoch), squids, isp);
      match ExcessFailoverCheck(awdata, squids, SiteRateThreshold)
      case Failure(e) => Run(saved, Failure(e))
      case Success(c) => Run(saved, Success(Checked(c)))
  }

  /**
   * With a previous snapshot and a well-formed squid table, the run reports, exit
   * status 0, the institutions whose direct traffic grew too fast since that snapshot.
   */
  lemma MainChecksAfterFirstRun(now: seq<Sample>, nowEpoch: int, previous: Snapshot, squids: seq<Squid>, isp: string -> string)
    requires previous.epoch != nowEpoch && DistinctSquids(squids)
    ensures var r := Main(now, nowEpoch, Some(previous), squids, isp);
      && r.outcome.Success? && r.outcome.value.Checked? && ExitStatus(r.outcome.value) == 0
      && r.outcome.value.check.instiHigh ==
           InstiHigh(TagRows(ComputeTrafficDelta(now, previous.rows, nowEpoch, previous.epoch), squids, isp), SiteRateThreshold)
  {
  }

  /** Where the code as written raises, the corrected `main` reaches the check. */
  lemma MainCorrectsTruthValue(now: seq<Sample>, nowEpoch: int, previous: Snapshot, squids: seq<Squid>, isp: string -> string)
    requires previous.epoch != nowEpoch && DistinctSquids(squids)
    ensures MainAsWritten(now, nowEpoch, Some(previous)).outcome.Failure?
    ensures Main(now, nowEpoch, Some(previous), squids, isp).outcome.Success?
    ensures MainAsWritten(now, nowEpoch, Some(previous)).saved == Main(now, nowEpoch, Some(previous), squids, isp).saved
  {
  }
}
