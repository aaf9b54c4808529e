/**
 * Patching the proxy topology with the exception list (`patch_geo_table` in
 * FailoverLib.py), `flatten`, and the squid host-to-alias map (`get_squid_host_alias_map`).
 * GeoIP's organisation-by-name lookup is an injected function.
 */
module FailoverTopology {
  import opened Results
  import opened PyText
  import opened FailoverHosts
  import opened FailoverExceptions

  /** `sum(iterator, [])`: the lists concatenated in order. */
  function Flatten<T>(xss: seq<seq<T>>): (r: seq<T>)
    decreases |xss|
  {
    if xss == [] then [] else xss[0] + Flatten(xss[1..])
  }

  /** An element is in the flattened list exactly when it is in one of the lists. */
  lemma {:induction false} FlattenMembership<T>(xss: seq<seq<T>>, x: T)
    ensures x in Flatten(xss) <==> exists i :: 0 <= i < |xss| && x in xss[i]
    decreases |xss|
  {
    if xss != [] {
      var tail := xss[1..];
      FlattenMembership(tail, x);
      if x in Flatten(xss) && x !in xss[0] {
        var i :| 0 <= i < |tail| && x in tail[i];
        assert x in xss[i + 1];
      }
      if exists i :: 0 <= i < |xss| && x in xss[i] {
        var i :| 0 <= i < |xss| && x in xss[i];
        if i > 0 {
          assert x in tail[i - 1];
        }
      }
    }
  }

  /** The flattened list is as long as the lists together. */
  lemma {:induction false} FlattenAppend<T>(xss: seq<seq<T>>, yss: seq<seq<T>>)
    ensures Flatten(xss + yss) == Flatten(xss) + Flatten(yss)
    decreases |xss|
  {
    if xss != [] {
      assert (xss + yss)[1..] == xss[1..] + yss;
      FlattenAppend(xss[1..], yss);
    } else {
      assert xss + yss == yss;
    }
  }

  /** `frame[mask]`: the rows that pass, in their order. */
  function Filter<T(!new)>(xs: seq<T>, keep: T -> bool): (r: seq<T>)
    ensures |r| <= |xs|
    ensures forall x :: x in r <==> x in xs && keep(x)
    decreases |xs|
  {
    if xs == [] then []
    else
      var rest := Filter(xs[1..], keep);
      assert forall x :: x in xs <==> x == xs[0] || x in xs[1..];
      if keep(xs[0]) then [xs[0]] + rest else rest
  }

  /** `geo[~geo.IsDNS]`: the proxies listed under one name that resolves to one address. */
  function NonDns(geo: seq<GeoEntry>): seq<GeoEntry>
  {
    Filter(geo, (e: GeoEntry) => !e.isDNS)
  }

  /** `host` already appears in the table, as an `Alias` or as a `Host`. */
  predicate Listed(host: string, rows: seq<GeoEntry>)
  {
    exists e :: e in rows && (e.alias == host || e.host == host)
  }

  /**
   * `[gen_geo_entries(r['Host'], r['Institution'], r['Site']) for r in rows]` with
   * `Institution = org_by_name(Host)`; the first malformed host spec raises.
   */
  function GenAll(rows: seq<SiteHost>, orgByName: string -> string, res: Resolver): (r: Result<seq<seq<GeoEntry>>>)
    ensures r.Success? ==>
      && |r.value| == |rows|
      && forall i :: 0 <= i < |rows| ==>
        GeoEntries(rows[i].host, orgByName(rows[i].host), rows[i].site, res) == Success(r.value[i])
    ensures r.Failure? ==> exists i :: 0 <= i < |rows| && GeoEntries(rows[i].host, orgByName(rows[i].host), rows[i].site, res).Failure?
    decreases |rows|
  {
    if rows == [] then Success([])
    else
      match GeoEntries(rows[0].host, orgByName(rows[0].host), rows[0].site, res)
      case Failure(e) => Failure(e)
      case Success(es) =>
        match GenAll(rows[1..], orgByName, res)
        case Failure(e) =>
          var i :| 0 <= i < |rows[1..]| && GeoEntries(rows[1..][i].host, orgByName(rows[1..][i].host), rows[1..][i].site, res).Failure?;
          assert rows[i + 1] == rows[1..][i];
          Failure(e)
        case Success(rest) => Success([es] + rest)
  }

  /** `actions[actions == '-'].index`: the sites to remove from the monitoring view. */
  function RemovedSites(actions: seq<SiteAction>): set<string>
  {
    set a | a in actions && a.action == '-' :: a.site
  }

  /**
   * The table after the first three steps of `patch_geo_table`: DNS rows dropped, rows for
   * monitoring hosts not yet listed appended, rows of `-` sites dropped. A frame built from
   * no records has no columns, so reading `IsDNS` or `Host` from it raises AttributeError.
   */
  function Candidates(geo: seq<GeoEntry>, moView: seq<SiteHost>, actions: seq<SiteAction>,
                      orgByName: string -> string, res: Resolver): Result<seq<GeoEntry>>
  {
    if geo == [] then Failure(AttributeError("IsDNS"))
    else if moView == [] then Failure(AttributeError("Host"))
    else
      var geoNew := NonDns(geo);
      var moToAdd := Filter(moView, (m: SiteHost) => !Listed(m.host, geoNew));
      match GenAll(moToAdd, orgByName, res)
      case Failure(e) => Failure(e)
      case Success(added) =>
        var removed := RemovedSites(actions);
        Success(Filter(geoNew + Flatten(added), (e: GeoEntry) => e.site !in removed))
  }

  /** The selector of the last loop: same site, and the worker node named as `Alias` or as `Host`. */
  predicate WorkerNodeMatch(w: SiteHost, e: GeoEntry)
  {
    (e.alias == w.host || e.host == w.host) && e.site == w.site
  }

  /** `geo_new = geo_new[~sel]` for each worker node in turn. */
  function DropWorkerNodes(rows: seq<GeoEntry>, wns: seq<SiteHost>): seq<GeoEntry>
    decreases |wns|
  {
    if wns == [] then rows
    else DropWorkerNodes(Filter(rows, (e: GeoEntry) => !WorkerNodeMatch(wns[0], e)), wns[1..])
  }

  /** The worker nodes the loop visits: `WN_view[WN_view.Site.isin(geo_new.Site)]`. */
  function WorkerNodeSelection(wnView: seq<SiteHost>, rows: seq<GeoEntry>): seq<SiteHost>
  {
    var sites := set e | e in rows :: e.site;
    Filter(wnView, (w: SiteHost) => w.site in sites)
  }

  /** What `patch_geo_table` returns. */
  function PatchedGeoTable(geo: seq<GeoEntry>, moView: seq<SiteHost>, wnView: seq<SiteHost>, actions: seq<SiteAction>,
                           orgByName: string -> string, res: Resolver): Result<seq<GeoEntry>>
  {
    match Candidates(geo, moView, actions, orgByName, res)
    case Failure(e) => Failure(e)
    case Success(rows) =>
      if wnView == [] then Failure(AttributeError("Site"))
      else Success(DropWorkerNodes(rows, WorkerNodeSelection(wnView, rows)))
  }

  /** `patch_geo_table`: the column steps, then the loop removing worker nodes one at a time. */
  method PatchGeoTable(geo: seq<GeoEntry>, moView: seq<SiteHost>, wnView: seq<SiteHost>, actions: seq<SiteAction>,
                       orgByName: string -> string, res: Resolver) returns (r: Result<seq<GeoEntry>>)
    ensures r == PatchedGeoTable(geo, moView, wnView, actions, orgByName, res)
  {
    var candidates := Candidates(geo, moView, actions, orgByName, res);
    if candidates.Failure? {
      return Failure(candidates.error);
    }
    var geoNew := candidates.value;
    if wnView == [] {
      return Failure(AttributeError("Site"));
    }
    var selected := WorkerNodeSelection(wnView, geoNew);
    var i := 0;
    while i < |selected|
      invariant 0 <= i <= |selected|
      invariant DropWorkerNodes(geoNew, selected[i..]) == DropWorkerNodes(candidates.value, selected)
    {
      var elem := selected[i];
      assert selected[i..][1..] == selected[i + 1..];
      geoNew := Filter(geoNew, (e: GeoEntry) => !WorkerNodeMatch(elem, e));
      i := i + 1;
    }
    assert selected[i..] == [];
    return Success(geoNew);
  }

  /** A row survives the loop exactly when no visited worker node matches it. */
  lemma {:induction false} DropWorkerNodesMembership(rows: seq<GeoEntry>, wns: seq<SiteHost>)
    ensures forall e :: e in DropWorkerNodes(rows, wns) <==> e in rows && forall w :: w in wns ==> !WorkerNodeMatch(w, e)
    decreases |wns|
  {
    if wns != [] {
      var next := Filter(rows, (e: GeoEntry) => !WorkerNodeMatch(wns[0], e));
      DropWorkerNodesMembership(next, wns[1..]);
      assert forall w :: w in wns <==> w == wns[0] || w in wns[1..];
    }
  }

  /**
   * Visiting only the worker nodes of sites still in the table loses nothing: removing
   * with every worker node of the view gives the same rows.
   */
  lemma SelectionIsRedundant(rows: seq<GeoEntry>, wnView: seq<SiteHost>)
    ensures forall e :: e in DropWorkerNodes(rows, WorkerNodeSelection(wnView, rows)) <==> e in DropWorkerNodes(rows, wnView)
  {
    DropWorkerNodesMembership(rows, WorkerNodeSelection(wnView, rows));
    DropWorkerNodesMembership(rows, wnView);
  }

  /** Every row of the patched table is an input row that is not a DNS alias, or a row generated for an unlisted monitoring host. */
  predicate FromGeoOrMonitoring(e: GeoEntry, geo: seq<GeoEntry>, moView: seq<SiteHost>, orgByName: string -> string, res: Resolver)
  {
    || (e in geo && !e.isDNS)
    || exists m :: m in moView && !Listed(m.host, NonDns(geo))
         && var g := GeoEntries(m.host, orgByName(m.host), m.site, res);
            g.Success? && e in g.value
  }

  lemma CandidatesProvenance(geo: seq<GeoEntry>, moView: seq<SiteHost>, actions: seq<SiteAction>,
                             orgByName: string -> string, res: Resolver)
    ensures var c := Candidates(geo, moView, actions, orgByName, res);
      c.Success? ==> forall e :: e in c.value ==>
        e.site !in RemovedSites(actions) && FromGeoOrMonitoring(e, geo, moView, orgByName, res)
  {
    var c := Candidates(geo, moView, actions, orgByName, res);
    if c.Success? {
      var geoNew := NonDns(geo);
      var moToAdd := Filter(moView, (m: SiteHost) => !Listed(m.host, geoNew));
      var added := GenAll(moToAdd, orgByName, res).value;
      forall e | e in c.value ensures FromGeoOrMonitoring(e, geo, moView, orgByName, res) {
        if e !in geoNew {
          FlattenMembership(added, e);
          var i :| 0 <= i < |added| && e in added[i];
          assert moToAdd[i] in moToAdd;
        }
      }
    }
  }

  /**
   * The guarantees of `patch_geo_table`: no row of a `-` site, no row a worker node of the
   * same site names by `Alias` or `Host`, and nothing but non-DNS input rows and rows for
   * monitoring hosts not already listed.
   */
  lemma PatchedGeoTableGuarantees(geo: seq<GeoEntry>, moView: seq<SiteHost>, wnView: seq<SiteHost>, actions: seq<SiteAction>,
                                  orgByName: string -> string, res: Resolver)
    ensures var r := PatchedGeoTable(geo, moView, wnView, actions, orgByName, res);
      r.Success? ==> forall e :: e in r.value ==>
        && e.site !in RemovedSites(actions)
        && (forall w :: w in wnView ==> !WorkerNodeMatch(w, e))
        && FromGeoOrMonitoring(e, geo, moView, orgByName, res)
  {
    var r := PatchedGeoTable(geo, moView, wnView, actions, orgByName, res);
    if r.Success? {
      var rows := Candidates(geo, moView, actions, orgByName, res).value;
      CandidatesProvenance(geo, moView, actions, orgByName, res);
      SelectionIsRedundant(rows, wnView);
      DropWorkerNodesMembership(rows, wnView);
    }
  }

  /** Conversely, a non-DNS input row is kept unless its site is removed or a worker node of its site names it. */
  lemma PatchedGeoTableKeeps(geo: seq<GeoEntry>, moView: seq<SiteHost>, wnView: seq<SiteHost>, actions: seq<SiteAction>,
                             orgByName: string -> string, res: Resolver, e: GeoEntry)
    requires PatchedGeoTable(geo, moView, wnView, actions, orgByName, res).Success?
    requires e in geo && !e.isDNS && e.site !in RemovedSites(actions)
    requires forall w :: w in wnView ==> !WorkerNodeMatch(w, e)
    ensures e in PatchedGeoTable(geo, moView, wnView, actions, orgByName, res).value
  {
    var rows := Candidates(geo, moView, actions, orgByName, res).value;
    var geoNew := NonDns(geo);
    var moToAdd := Filter(moView, (m: SiteHost) => !Listed(m.host, geoNew));
    var added := GenAll(moToAdd, orgByName, res);
    assert added.Success?;
    var removed := RemovedSites(actions);
    var all := geoNew + Flatten(added.value);
    assert rows == Filter(all, (x: GeoEntry) => x.site !in removed);
    assert e in geoNew;
    assert e in all;
    assert e in rows;
    DropWorkerNodesMembership(rows, wnView);
    SelectionIsRedundant(rows, wnView);
  }

  /**
   * The rows generated for a monitoring host not yet listed reach the table: every row
   * `gen_geo_entries` gives for it is kept unless its site is removed or a worker node of
   * that site names it.
   */
  lemma PatchedGeoTableAdds(geo: seq<GeoEntry>, moView: seq<SiteHost>, wnView: seq<SiteHost>, actions: seq<SiteAction>,
                            orgByName: string -> string, res: Resolver, m: SiteHost)
    requires PatchedGeoTable(geo, moView, wnView, actions, orgByName, res).Success?
    requires m in moView && !Listed(m.host, NonDns(geo)) && m.site !in RemovedSites(actions)
    ensures var g := GeoEntries(m.host, orgByName(m.host), m.site, res);
      && g.Success?
      && forall e :: e in g.value && (forall w :: w in wnView ==> !WorkerNodeMatch(w, e)) ==>
           e in PatchedGeoTable(geo, moView, wnView, actions, orgByName, res).value
  {
    var rows := Candidates(geo, moView, actions, orgByName, res).value;
    var geoNew := NonDns(geo);
    var moToAdd := Filter(moView, (x: SiteHost) => !Listed(x.host, geoNew));
    var added := GenAll(moToAdd, orgByName, res);
    assert added.Success?;
    var removed := RemovedSites(actions);
    var all := geoNew + Flatten(added.value);
    assert rows == Filter(all, (x: GeoEntry) => x.site !in removed);
    assert m in moToAdd;
    var i :| 0 <= i < |moToAdd| && moToAdd[i] == m;
    var g := GeoEntries(m.host, orgByName(m.host), m.site, res);
    assert g == Success(added.value[i]);
    forall e | e in g.value
      ensures e in rows
    {
      FlattenMembership(added.value, e);
      assert e in all;
    }
    DropWorkerNodesMembership(rows, wnView);
    SelectionIsRedundant(rows, wnView);
  }

  /** A `(Host, Alias)` entry of the squid alias series. */
  datatype HostAlias = HostAlias(host: string, alias: string)

  /** `drop_duplicates()`: the first occurrence of each value, in order. */
  function Dedup<T(==,!new)>(xs: seq<T>): (r: seq<T>)
    ensures forall x :: x in r <==> x in xs
    ensures forall i, j :: 0 <= i < j < |r| ==> r[i] != r[j]
    decreases |xs|
  {
    if xs == [] then []
    else
      var init := Dedup(xs[..|xs| - 1]);
      var last := xs[|xs| - 1];
      assert forall x :: x in xs <==> x in xs[..|xs| - 1] || x == last;
      if last in init then init else init + [last]
  }

  /** The entry for one deduplicated pair: host lowercased, alias blanked when it equals that host. */
  function AliasEntry(p: HostAlias): HostAlias
  {
    var host := Lower(p.host);
    HostAlias(host, if host == p.alias then "" else p.alias)
  }

  /** `geo_table[['Host', 'Alias']]`: the pair of every row. */
  function HostAliasPairs(rows: seq<GeoEntry>): (r: seq<HostAlias>)
    ensures |r| == |rows|
    ensures forall i :: 0 <= i < |rows| ==> r[i] == HostAlias(rows[i].host, rows[i].alias)
  {
    seq(|rows|, i requires 0 <= i < |rows| => HostAlias(rows[i].host, rows[i].alias))
  }

  /** `get_squid_host_alias_map`: one entry per distinct non-DNS `(Host, Alias)` pair, in table order. */
  function SquidHostAliasMap(geo: seq<GeoEntry>): seq<HostAlias>
  {
    var pairs := Dedup(HostAliasPairs(NonDns(geo)));
    seq(|pairs|, i requires 0 <= i < |pairs| => AliasEntry(pairs[i]))
  }

  /**
   * The alias series holds an entry for every non-DNS row and nothing else; an alias
   * equal to its lowercased host is blanked, so no entry maps a host to itself.
   */
  lemma SquidHostAliasMapEntries(geo: seq<GeoEntry>)
    ensures var r := SquidHostAliasMap(geo);
      && (forall p :: p in r ==> p.alias == p.host ==> p.alias == "")
      && (forall e :: e in geo && !e.isDNS ==> AliasEntry(HostAlias(e.host, e.alias)) in r)
      && (forall p :: p in r ==> exists e :: e in geo && !e.isDNS && p == AliasEntry(HostAlias(e.host, e.alias)))
  {
    var rows := NonDns(geo);
    var all := HostAliasPairs(rows);
    var pairs := Dedup(all);
    var r := SquidHostAliasMap(geo);
    assert |r| == |pairs| && forall j :: 0 <= j < |r| ==> r[j] == AliasEntry(pairs[j]);
    forall e | e in geo && !e.isDNS ensures AliasEntry(HostAlias(e.host, e.alias)) in r {
      assert e in rows;
      var i :| 0 <= i < |rows| && rows[i] == e;
      assert all[i] == HostAlias(e.host, e.alias);
      assert HostAlias(e.host, e.alias) in pairs;
      var j :| 0 <= j < |pairs| && pairs[j] == HostAlias(e.host, e.alias);
      assert r[j] == AliasEntry(HostAlias(e.host, e.alias));
    }
    forall p | p in r ensures exists e :: e in geo && !e.isDNS && p == AliasEntry(HostAlias(e.host, e.alias)) {
      var j :| 0 <= j < |r| && r[j] == p;
      assert pairs[j] in all;
      var k :| 0 <= k < |all| && all[k] == pairs[j];
      assert rows[k] in rows;
    }
  }
}
