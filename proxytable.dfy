/**
 * The pieces validate_parse_exceptionlist.py and validate_parse_geolist.py share:
 * the institution → site → proxies table both fill, the proxy list taken from a
 * geolist chunk with the substring `;DIRECT` removed, and the old-format site entry
 * `update_institute_hostnames` writes (`HttpProxy`, `ProxyHost`, `ProxyIP`).
 */
module ProxyTables {
  import opened Results
  import opened PyText
  import opened StrOrder
  import opened FailoverTopology
  import opened FailoverGeoList

  /** The old-format site entry: proxy URLs, their host names, and the addresses those resolve to. */
  datatype SiteProxies = SiteProxies(httpProxy: seq<string>, proxyHost: seq<string>, proxyIP: seq<string>)

  /**
   * `sites_squids_list[institute][site] = value` when the institution exists, and
   * `sites_squids_list[institute] = {site: value}` when it does not: the site entry is
   * replaced whole, every other entry is kept.
   */
  function PutSite<V>(t: map<string, map<string, V>>, institute: string, site: string, v: V): (r: map<string, map<string, V>>)
    ensures r.Keys == t.Keys + {institute}
    ensures site in r[institute] && r[institute][site] == v
    ensures institute in t ==> r[institute].Keys == t[institute].Keys + {site}
    ensures institute !in t ==> r[institute].Keys == {site}
    ensures forall s :: institute in t && s in t[institute] && s != site ==> r[institute][s] == t[institute][s]
    ensures forall i :: i in t && i != institute ==> r[i] == t[i]
  {
    if institute !in t then t[institute := map[site := v]]
    else t[institute := t[institute][site := v]]
  }

  /** Writing one site leaves every other site of every institution as it was. */
  lemma PutSiteKeepsOthers<V>(t: map<string, map<string, V>>, institute: string, site: string, v: V, i: string, s: string)
    requires i in t && s in t[i] && (i != institute || s != site)
    ensures var r := PutSite(t, institute, site, v);
      i in r && s in r[i] && r[i][s] == t[i][s]
  {
  }

  /**
   * `sorted(set(field.replace(';DIRECT','').replace(';','|').split('|')))`: the proxy
   * specs of a geolist chunk with the substring `;DIRECT` removed, each once, sorted.
   */
  function DirectFreeProxies(field: string): (r: seq<string>)
    ensures StrictlySorted(r)
    ensures forall p :: p in r ==> ';' !in p && '|' !in p
    ensures forall p :: p in r <==> p in SplitOn(Replace(Replace(field, ";DIRECT", ""), ";", "|"), "|")
  {
    var stripped := Replace(field, ";DIRECT", "");
    var joined := Replace(stripped, ";", "|");
    NoSemicolonAfterReplace(stripped);
    SplitOnCharPieces(joined, '|');
    SplitOnAvoids(joined, "|", ';');
    SortedSet(SplitOn(joined, "|"))
  }

  /** A field that is one host once `;DIRECT` is gone gives that host alone. */
  lemma DirectFreeSingleHost(field: string, host: string)
    requires Replace(field, ";DIRECT", "") == host && ';' !in host && '|' !in host
    ensures DirectFreeProxies(field) == [host]
  {
    SplitOnCharAbsent(host, ';');
    assert [';'] == ";";
    assert Replace(host, ";", "|") == host;
    SplitOnCharAbsent(host, '|');
    assert ['|'] == "|";
    var r := DirectFreeProxies(field);
    assert forall p :: p in r <==> p == host;
    assert host in r;
  }

  /** Unlike the character-set strip of FailoverLib.py, a host ending in `ICT` keeps its name. */
  lemma DirectFreeKeepsHostName()
    ensures DirectFreeProxies("a.ICT;DIRECT") == ["a.ICT"]
  {
    ReplaceIsSubstringRemoval();
    var h := "a.ICT";
    assert ';' !in h && '|' !in h;
    DirectFreeSingleHost("a.ICT;DIRECT", h);
  }

  /** `url.split(':')[1].replace('/','')`: the host of a proxy URL; IndexError without a `:`. */
  function ListedHost(url: string): (r: Result<string>)
    ensures r.Success? <==> Contains(url, ":")
    ensures r.Success? ==> '/' !in r.value && r.value == RemoveChars(SplitOn(url, ":")[1], {'/'})
  {
    var fields := SplitOn(url, ":");
    if |fields| < 2 then Failure(IndexError("url.split(':')[1]"))
    else Success(RemoveChars(fields[1], {'/'}))
  }

  /** `[url.split(':')[1].replace('/','') for url in proxies_list]`; the first URL without `:` raises. */
  function HostNames(proxies: seq<string>): Result<seq<string>>
  {
    if proxies == [] then Success([])
    else
      match ListedHost(proxies[0])
      case Failure(e) => Failure(e)
      case Success(h) =>
        match HostNames(proxies[1..])
        case Failure(e) => Failure(e)
        case Success(rest) => Success([h] + rest)
  }

  /** The comprehension succeeds iff every URL has a `:`, and then gives each URL's host, in order. */
  lemma {:induction false} HostNamesExact(proxies: seq<string>)
    ensures var r := HostNames(proxies);
      && (r.Success? <==> forall i :: 0 <= i < |proxies| ==> Contains(proxies[i], ":"))
      && (r.Success? ==> |r.value| == |proxies| && forall i :: 0 <= i < |proxies| ==> ListedHost(proxies[i]) == Success(r.value[i]))
  {
    if proxies != [] {
      HostNamesExact(proxies[1..]);
      assert forall i :: 1 <= i < |proxies| ==> proxies[i] == proxies[1..][i - 1];
    }
  }

  /**
   * `update_institute_hostnames`' site entry: the proxies as given, their host names,
   * and the concatenated addresses of those names under `lookup`.
   */
  function ProxyListsEntry(proxies: seq<string>, lookup: string -> seq<string>): (r: Result<SiteProxies>)
    ensures r.Success? <==> forall i :: 0 <= i < |proxies| ==> Contains(proxies[i], ":")
    ensures r.Success? ==> r.value.httpProxy == proxies && |r.value.proxyHost| == |proxies|
    ensures r.Success? ==> forall i :: 0 <= i < |proxies| ==> ListedHost(proxies[i]) == Success(r.value.proxyHost[i])
  {
    HostNamesExact(proxies);
    match HostNames(proxies)
    case Failure(e) => Failure(e)
    case Success(names) =>
      Success(SiteProxies(proxies, names, Flatten(seq(|names|, i requires 0 <= i < |names| => lookup(names[i])))))
  }

  /** Every address of the entry is an address of one of its host names, and every such address is there. */
  lemma ProxyListsEntryAddresses(proxies: seq<string>, lookup: string -> seq<string>, ip: string)
    requires ProxyListsEntry(proxies, lookup).Success?
    ensures var e := ProxyListsEntry(proxies, lookup).value;
      ip in e.proxyIP <==> exists i :: 0 <= i < |e.proxyHost| && ip in lookup(e.proxyHost[i])
  {
    HostNamesExact(proxies);
    var names := HostNames(proxies).value;
    var ips := seq(|names|, i requires 0 <= i < |names| => lookup(names[i]));
    var e := ProxyListsEntry(proxies, lookup).value;
    assert e.proxyHost == names && e.proxyIP == Flatten(ips);
    FlattenMembership(ips, ip);
    assert forall i :: 0 <= i < |names| ==> ips[i] == lookup(names[i]);
  }
}
