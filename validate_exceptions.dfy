/**
 * validate_parse_exceptionlist.py: the validator that reads the geolist into an
 * institution → site → proxies table and then edits that table in place, line by
 * line, from the exception list (`parse_exception_list_new`). The table is the field
 * of a `SquidsList`; the site → institutions map the edit keeps beside it is returned.
 *
 * DNS is an injected `Resolver`; a file is its sequence of lines.
 */
module ExceptionListValidator {
  import opened Results
  import opened PyText
  import opened StrOrder
  import opened FailoverHosts
  import opened FailoverGeoList
  import opened ProxyTables

  /** The new-format data of one proxy host: `{'port': ..., 'ip': ...}`. */
  datatype HostData = HostData(port: string, ip: seq<string>)

  /**
   * A site entry: the old-format `HttpProxy`/`ProxyHost`/`ProxyIP` lists, or the
   * new-format dict from host name to its data (`{}` for a site with no host yet).
   */
  datatype SiteEntry = Lists(lists: SiteProxies) | Hosts(hosts: map<string, HostData>)

  type Table = map<string, map<string, SiteEntry>>

  /** The institution unregistered sites are filed under. */
  const NewSites: string := "NewSites"

  /** `sites_squids_list[institution][site].keys()`. */
  function EntryKeys(e: SiteEntry): set<string>
  {
    match e
    case Lists(_) => {"HttpProxy", "ProxyHost", "ProxyIP"}
    case Hosts(h) => h.Keys
  }

  /**
   * `simple_get_host_ipv4`: a literal address alone, the sentinel on a lookup error, and
   * otherwise the addresses of `getaddrinfo(host, 0)`. Unlike FailoverLib.py's
   * `simple_get_hosts_ipv4_addrs` the lookup names no address family, so IPv6 addresses
   * are returned too.
   */
  function SimpleGetHostIpv4(hostname: string, res: Resolver): (r: seq<string>)
    ensures IsValidIp(hostname) ==> r == [hostname]
    ensures !IsValidIp(hostname) && res.addrInfoAny(hostname).Unresolvable? ==> r == [Unresolved]
    ensures !IsValidIp(hostname) && res.addrInfoAny(hostname).Resolved? ==>
      |r| == |res.addrInfoAny(hostname).addrs| && forall x :: x in r <==> x in res.addrInfoAny(hostname).addrs
    ensures forall i, j :: 0 <= i < j < |r| ==> r[i] != r[j]
  {
    AddressesOf(hostname, res.addrInfoAny)
  }

  /** `simple_get_host_ipv4` as a lookup function. */
  function HostLookup(res: Resolver): string -> seq<string>
  {
    (h: string) => SimpleGetHostIpv4(h, res)
  }

  // ---------------------------------------------------------------------------
  // update_institute_hostnames and update_institute_hostnames_new
  // ---------------------------------------------------------------------------

  /** The table after `update_institute_hostnames`, or the IndexError of a URL without `:`. */
  function OldUpdate(t: Table, institute: string, site: string, proxies: seq<string>, res: Resolver): (r: Result<Table>)
    ensures r.Success? <==> forall i :: 0 <= i < |proxies| ==> Contains(proxies[i], ":")
    ensures r.Success? ==>
      && institute in r.value
      && site in r.value[institute]
      && r.value[institute][site].Lists?
      && r.value[institute][site].lists.httpProxy == proxies
    ensures r.Success? ==> r.value.Keys == t.Keys + {institute} && forall i :: i in t && i != institute ==> r.value[i] == t[i]
    ensures r.Success? && institute in t ==> t[institute].Keys <= r.value[institute].Keys
  {
    match ProxyListsEntry(proxies, HostLookup(res))
    case Failure(e) => Failure(e)
    case Success(entry) => Success(PutSite(t, institute, site, Lists(entry)))
  }

  /** `proxy.replace('/','').split(':')` unpacked into host and port. */
  function SpecHost(proxy: string): Result<HostSpec>
  {
    ParseHostSpec(RemoveChars(proxy, {'/'}))
  }

  /** The loop of `update_institute_hostnames_new` from `acc` on; a later proxy of the same host overwrites. */
  function HostsFrom(acc: map<string, HostData>, proxies: seq<string>, res: Resolver): Result<map<string, HostData>>
    decreases |proxies|
  {
    if proxies == [] then Success(acc)
    else
      match SpecHost(proxies[0])
      case Failure(e) => Failure(e)
      case Success(spec) => HostsFrom(acc[spec.host := HostData(spec.port, SimpleGetHostIpv4(spec.host, res))], proxies[1..], res)
  }

  /** The `hosts_dict` of `update_institute_hostnames_new`. */
  function HostsDict(proxies: seq<string>, res: Resolver): Result<map<string, HostData>>
  {
    HostsFrom(map[], proxies, res)
  }

  /**
   * The dict has one key per host named by the proxies, each with the addresses of
   * that host and the port of a proxy naming it; a proxy with two or four and more
   * `:` fields raises ValueError.
   */
  lemma {:induction false} HostsFromContents(acc: map<string, HostData>, proxies: seq<string>, res: Resolver)
    requires forall h :: h in acc ==> acc[h].ip == SimpleGetHostIpv4(h, res)
    ensures var r := HostsFrom(acc, proxies, res);
      && (r.Success? <==> forall p :: p in proxies ==> SpecHost(p).Success?)
      && (r.Success? ==> forall h :: h in r.value <==> h in acc || exists p :: p in proxies && SpecHost(p).Success? && SpecHost(p).value.host == h)
      && (r.Success? ==> forall h :: h in r.value ==> r.value[h].ip == SimpleGetHostIpv4(h, res))
    decreases |proxies|
  {
    if proxies != [] {
      assert forall p :: p in proxies <==> p == proxies[0] || p in proxies[1..];
      var s := SpecHost(proxies[0]);
      if s.Success? {
        var acc' := acc[s.value.host := HostData(s.value.port, SimpleGetHostIpv4(s.value.host, res))];
        HostsFromContents(acc', proxies[1..], res);
      }
    }
  }

  /** Proxy `p` is a well-formed spec for host `h`. */
  predicate NamesHost(p: string, h: string)
  {
    SpecHost(p).Success? && SpecHost(p).value.host == h
  }

  /** Proxy `k` is well-formed and no later proxy names its host. */
  predicate LastNaming(proxies: seq<string>, k: nat)
  {
    && k < |proxies| && SpecHost(proxies[k]).Success?
    && forall p :: p in proxies[k + 1..] ==> !NamesHost(p, SpecHost(proxies[k]).value.host)
  }

  /** A host no proxy names keeps its data. */
  lemma {:induction false} HostsFromUntouched(acc: map<string, HostData>, proxies: seq<string>, res: Resolver, h: string)
    requires h in acc && forall p :: p in proxies ==> !NamesHost(p, h)
    ensures var r := HostsFrom(acc, proxies, res);
      r.Success? ==> h in r.value && r.value[h] == acc[h]
    decreases |proxies|
  {
    if proxies != [] {
      assert proxies[0] in proxies;
      assert forall p :: p in proxies[1..] ==> p in proxies;
      var s := SpecHost(proxies[0]);
      if s.Success? {
        HostsFromUntouched(acc[s.value.host := HostData(s.value.port, SimpleGetHostIpv4(s.value.host, res))], proxies[1..], res, h);
      }
    }
  }

  /** A host's port is the port of the last proxy naming it: a later proxy of the same host overwrites. */
  lemma {:induction false} HostsFromLastPort(acc: map<string, HostData>, proxies: seq<string>, res: Resolver, k: nat)
    requires LastNaming(proxies, k)
    ensures var r := HostsFrom(acc, proxies, res);
      var spec := SpecHost(proxies[k]).value;
      r.Success? ==> spec.host in r.value && r.value[spec.host].port == spec.port
    decreases |proxies|
  {
    var s := SpecHost(proxies[0]);
    if s.Success? {
      var acc' := acc[s.value.host := HostData(s.value.port, SimpleGetHostIpv4(s.value.host, res))];
      if k == 0 {
        HostsFromUntouched(acc', proxies[1..], res, s.value.host);
      } else {
        assert proxies[1..][k - 1] == proxies[k];
        assert proxies[1..][k - 1 + 1..] == proxies[k + 1..];
        HostsFromLastPort(acc', proxies[1..], res, k - 1);
      }
    }
  }

  /**
   * The port of every host in `hosts_dict`: that of the last proxy naming it, or the one
   * it had before when no proxy names it.
   */
  lemma HostsFromPorts(acc: map<string, HostData>, proxies: seq<string>, res: Resolver)
    ensures var r := HostsFrom(acc, proxies, res);
      r.Success? ==>
        && (forall k: nat :: LastNaming(proxies, k) ==>
              var spec := SpecHost(proxies[k]).value;
              spec.host in r.value && r.value[spec.host].port == spec.port)
        && (forall h :: h in acc && (forall p :: p in proxies ==> !NamesHost(p, h)) ==> h in r.value && r.value[h] == acc[h])
  {
    forall k: nat | LastNaming(proxies, k)
      ensures var r := HostsFrom(acc, proxies, res);
        var spec := SpecHost(proxies[k]).value;
        r.Success? ==> spec.host in r.value && r.value[spec.host].port == spec.port
    {
      HostsFromLastPort(acc, proxies, res, k);
    }
    forall h | h in acc && (forall p :: p in proxies ==> !NamesHost(p, h))
      ensures var r := HostsFrom(acc, proxies, res);
        r.Success? ==> h in r.value && r.value[h] == acc[h]
    {
      HostsFromUntouched(acc, proxies, res, h);
    }
  }

  lemma RemoveCharsAbsent(s: string, chars: set<char>)
    requires forall i :: 0 <= i < |s| ==> s[i] !in chars
    ensures RemoveChars(s, chars) == s
  {
    if s != [] {
      RemoveCharsAbsent(s[1..], chars);
    }
  }

  /** A bare host name, with neither `:` nor `/`, is its own key and gets port `''`. */
  lemma BareHostGetsEmptyPort(host: string, res: Resolver)
    requires ':' !in host && '/' !in host
    ensures HostsDict([host], res) == Success(map[host := HostData("", SimpleGetHostIpv4(host, res))])
  {
    RemoveCharsAbsent(host, {'/'});
    SplitOnCharAbsent(host, ':');
    assert [':'] == ":";
    assert SplitOn(host, ":") == [host];
    assert SpecHost(host) == Success(HostSpec(host, ""));
    var d := map[host := HostData("", SimpleGetHostIpv4(host, res))];
    assert [host][1..] == [];
    assert HostsFrom(map[], [host], res) == HostsFrom(d, [], res);
  }

  /** The table after `update_institute_hostnames_new`: the site entry replaced by the new host dict. */
  function NewUpdate(t: Table, institute: string, site: string, proxies: seq<string>, res: Resolver): (r: Result<Table>)
    ensures r.Success? <==> HostsDict(proxies, res).Success?
    ensures r.Success? ==>
      && r.value.Keys == t.Keys + {institute}
      && site in r.value[institute]
      && r.value[institute][site] == Hosts(HostsDict(proxies, res).value)
    ensures r.Success? ==> forall i :: i in t && i != institute ==> r.value[i] == t[i]
    ensures r.Success? && institute in t ==> t[institute].Keys <= r.value[institute].Keys
  {
    match HostsDict(proxies, res)
    case Failure(e) => Failure(e)
    case Success(d) => Success(PutSite(t, institute, site, Hosts(d)))
  }

  // ---------------------------------------------------------------------------
  // init_site_to_institutions_mapping, the branch without a mapping file
  // ---------------------------------------------------------------------------

  /** `site_to_institution[site].append(institution)`, or a new one-element list. */
  function AppendInstitution(m: map<string, seq<string>>, site: string, institution: string): map<string, seq<string>>
  {
    if site in m then m[site := m[site] + [institution]] else m[site := [institution]]
  }

  /** The inner loop: one institution appended for each of its sites. */
  function AddSites(m: map<string, seq<string>>, institution: string, sites: seq<string>): map<string, seq<string>>
    decreases |sites|
  {
    if sites == [] then m else AddSites(AppendInstitution(m, sites[0], institution), institution, sites[1..])
  }

  /** The outer loop over the institutions, each with its sites in ascending order. */
  function AddInstitutions(m: map<string, seq<string>>, t: Table, institutions: seq<string>): map<string, seq<string>>
    requires forall i :: i in institutions ==> i in t
    decreases |institutions|
  {
    if institutions == [] then m
    else AddInstitutions(AddSites(m, institutions[0], SortedElems(t[institutions[0]].Keys)), t, institutions[1..])
  }

  /** The site → institutions map built from the table. */
  function InverseMap(t: Table): map<string, seq<string>>
  {
    AddInstitutions(map[], t, SortedElems(t.Keys))
  }

  /** The institutions, among `institutions`, that list `site`, in order. */
  function Listing(t: Table, institutions: seq<string>, site: string): seq<string>
    decreases |institutions|
  {
    if institutions == [] then []
    else (if institutions[0] in t && site in t[institutions[0]] then [institutions[0]] else []) + Listing(t, institutions[1..], site)
  }

  function Get(m: map<string, seq<string>>, site: string): seq<string>
  {
    if site in m then m[site] else []
  }

  lemma {:induction false} AddSitesGet(m: map<string, seq<string>>, institution: string, sites: seq<string>, site: string)
    requires forall i, j :: 0 <= i < j < |sites| ==> sites[i] != sites[j]
    ensures site in AddSites(m, institution, sites) <==> site in m || site in sites
    ensures Get(AddSites(m, institution, sites), site) == Get(m, site) + (if site in sites then [institution] else [])
    decreases |sites|
  {
    if sites != [] {
      var m' := AppendInstitution(m, sites[0], institution);
      AddSitesGet(m', institution, sites[1..], site);
      assert forall x :: x in sites <==> x == sites[0] || x in sites[1..];
      if site == sites[0] {
        assert site !in sites[1..] by {
          forall k | 0 <= k < |sites[1..]| ensures sites[1..][k] != site {
            assert sites[1..][k] == sites[k + 1];
          }
        }
      }
    }
  }

  lemma {:induction false} AddInstitutionsGet(m: map<string, seq<string>>, t: Table, institutions: seq<string>, site: string)
    requires forall i :: i in institutions ==> i in t
    ensures site in AddInstitutions(m, t, institutions) <==> site in m || exists i :: i in institutions && site in t[i]
    ensures Get(AddInstitutions(m, t, institutions), site) == Get(m, site) + Listing(t, institutions, site)
    decreases |institutions|
  {
    if institutions != [] {
      var i0 := institutions[0];
      var rest := institutions[1..];
      assert forall x :: x in rest ==> x in institutions;
      var sites := SortedElems(t[i0].Keys);
      StrictlySortedDistinct(sites);
      AddSitesGet(m, i0, sites, site);
      var m' := AddSites(m, i0, sites);
      AddInstitutionsGet(m', t, rest, site);
      assert AddInstitutions(m, t, institutions) == AddInstitutions(m', t, rest);
      var head: seq<string> := if site in sites then [i0] else [];
      assert site in sites <==> site in t[i0];
      assert Listing(t, institutions, site) == head + Listing(t, rest, site);
      ConcatAssoc(Get(m, site), head, Listing(t, rest, site));
      if exists i :: i in institutions && site in t[i] {
        var i :| i in institutions && site in t[i];
        assert i == i0 || i in rest;
      }
      if site in t[i0] {
        assert i0 in institutions;
      }
    }
  }

  lemma {:induction false} ListingSorted(t: Table, institutions: seq<string>, site: string)
    requires StrictlySorted(institutions)
    ensures StrictlySorted(Listing(t, institutions, site))
    ensures forall x :: x in Listing(t, institutions, site) <==> x in institutions && x in t && site in t[x]
    decreases |institutions|
  {
    if institutions != [] {
      var rest := institutions[1..];
      assert StrictlySorted(rest) by {
        forall i, j | 0 <= i < j < |rest| ensures Less(rest[i], rest[j]) {
          assert rest[i] == institutions[i + 1] && rest[j] == institutions[j + 1];
        }
      }
      ListingSorted(t, rest, site);
      assert forall x :: x in institutions <==> x == institutions[0] || x in rest;
      var tail := Listing(t, rest, site);
      forall j | 0 <= j < |tail| ensures Less(institutions[0], tail[j]) {
        assert tail[j] in tail;
        var k :| 0 <= k < |rest| && rest[k] == tail[j];
        assert institutions[k + 1] == tail[j];
      }
    }
  }

  /**
   * The fallback of `init_site_to_institutions_mapping` is the inverse of the table:
   * a site is mapped exactly when some institution lists it, to all those
   * institutions, each once, in ascending order.
   */
  lemma InverseMapExact(t: Table, site: string)
    ensures site in InverseMap(t) <==> exists i :: i in t && site in t[i]
    ensures site in InverseMap(t) ==> StrictlySorted(InverseMap(t)[site])
    ensures site in InverseMap(t) ==> forall i :: i in InverseMap(t)[site] <==> i in t && site in t[i]
  {
    var insts := SortedElems(t.Keys);
    AddInstitutionsGet(map[], t, insts, site);
    ListingSorted(t, insts, site);
  }

  // ---------------------------------------------------------------------------
  // One line of the exception list
  // ---------------------------------------------------------------------------

  /** The site action: the first character when it is `+` or `-`, otherwise none. */
  datatype Action = Add | Remove | NoAction

  /** A meaningful line: the site, its action, and the hosts to add and to remove. */
  datatype ExceptionLine = ExceptionLine(site: string, action: Action, add: set<string>, remove: set<string>)

  /** `set([h[1:] for h in filter(lambda h: h[0] == mark, hosts)])`. */
  function Marked(hosts: seq<string>, mark: char): set<string>
  {
    set h | h in hosts && |h| > 0 && h[0] == mark :: h[1..]
  }

  function ActionOf(c: char): (a: Action)
    ensures a == Add <==> c == '+'
    ensures a == Remove <==> c == '-'
  {
    if c == '+' then Add else if c == '-' then Remove else NoAction
  }

  /**
   * A line of `parse_exception_list_new`: blank lines and `#` comments are skipped;
   * otherwise the site is the first token with every `+` and `-` removed and the
   * action is that token's first character.
   */
  function ParseExceptionLine(line: string): (r: Option<ExceptionLine>)
    ensures r.None? <==> Strip(line, Whitespace) == [] || Strip(line, Whitespace)[0] == '#'
    ensures r.Some? ==> '+' !in r.value.site && '-' !in r.value.site
    ensures r.Some? ==> var first := Words(Strip(line, Whitespace))[0];
      && r.value.site == RemoveChars(first, {'+', '-'})
      && (r.value.action == Add <==> first[0] == '+')
      && (r.value.action == Remove <==> first[0] == '-')
      && r.value.add == Marked(Words(Strip(line, Whitespace))[1..], '+')
      && r.value.remove == Marked(Words(Strip(line, Whitespace))[1..], '-')
  {
    var oneline := Strip(line, Whitespace);
    if oneline == [] || oneline[0] == '#' then None
    else
      StrippedHasWords(line);
      var entry := Words(oneline);
      assert IsWord(entry[0]);
      var site := RemoveChars(entry[0], {'+', '-'});
      assert forall i :: 0 <= i < |site| ==> site[i] != '+' && site[i] != '-';
      Some(ExceptionLine(site, ActionOf(entry[0][0]), Marked(entry[1..], '+'), Marked(entry[1..], '-')))
  }

  /** A host token without `+` or `-` only draws a warning: the hosts to add and remove are as without it. */
  lemma UnprefixedHostIgnored(hosts: seq<string>, token: string)
    requires |token| > 0 && token[0] != '+' && token[0] != '-'
    ensures Marked(hosts + [token], '+') == Marked(hosts, '+')
    ensures Marked(hosts + [token], '-') == Marked(hosts, '-')
  {
    assert forall h :: h in hosts + [token] <==> h in hosts || h == token;
  }

  // ---------------------------------------------------------------------------
  // The table edits of one line
  // ---------------------------------------------------------------------------

  /** The table and the site → institutions map between two lines. */
  datatype State = State(table: Table, siteInstitutions: map<string, seq<string>>)

  /** `for institution in site_to_institution[site]: sites_squids_list[institution].pop(site, None)`. */
  function RemoveSite(t: Table, site: string, institutions: seq<string>): (r: Result<Table>)
    ensures r.Success? <==> forall i :: i in institutions ==> i in t
    decreases |institutions|
  {
    if institutions == [] then Success(t)
    else if institutions[0] !in t then Failure(KeyError(institutions[0]))
    else
      assert forall x :: x in institutions <==> x == institutions[0] || x in institutions[1..];
      RemoveSite(t[institutions[0] := t[institutions[0]] - {site}], site, institutions[1..])
  }

  /** After a `-` line the site is gone from every institution mapped to it; all else is as before. */
  lemma {:induction false} RemoveSiteEffect(t: Table, site: string, institutions: seq<string>)
    requires forall i :: i in institutions ==> i in t
    ensures var r := RemoveSite(t, site, institutions).value;
      && r.Keys == t.Keys
      && (forall i :: i in institutions ==> site !in r[i] && r[i] == t[i] - {site})
      && (forall i :: i in t && i !in institutions ==> r[i] == t[i])
    decreases |institutions|
  {
    if institutions != [] {
      var i0 := institutions[0];
      var t' := t[i0 := t[i0] - {site}];
      assert forall x :: x in institutions <==> x == i0 || x in institutions[1..];
      RemoveSiteEffect(t', site, institutions[1..]);
    }
  }

  /** The empty entry `{}` a site gets before its hosts are known. */
  const EmptyEntry: SiteEntry := Hosts(map[])

  /** One institution of a `+` line: create the institution or the site when absent. */
  function ClaimOne(t: Table, institution: string, site: string): Table
  {
    if institution !in t then t[institution := map[site := EmptyEntry]]
    else if site !in t[institution] then t[institution := t[institution][site := EmptyEntry]]
    else t
  }

  /** `+` on a mapped site: every mapped institution gets the site, existing entries are kept. */
  function ClaimSite(t: Table, site: string, institutions: seq<string>): (r: Table)
    ensures forall i :: i in institutions ==> i in r && site in r[i]
    ensures forall i :: i in t ==> i in r && t[i].Keys <= r[i].Keys
    ensures forall i, s :: i in t && s in t[i] ==> r[i][s] == t[i][s]
    decreases |institutions|
  {
    if institutions == [] then t
    else
      assert forall x :: x in institutions <==> x == institutions[0] || x in institutions[1..];
      ClaimSite(ClaimOne(t, institutions[0], site), site, institutions[1..])
  }

  /**
   * The institutions a `+` or unmarked line applies to: a mapped site keeps its
   * institutions, an unmapped one is filed under `NewSites` (`+` adds the site when
   * absent, an unmarked line sets it to `{}`).
   */
  function Register(st: State, el: ExceptionLine): (r: Result<State>)
    ensures r.Success? ==> el.site in r.value.siteInstitutions
    ensures el.site !in st.siteInstitutions && r.Success? ==>
      && r.value.siteInstitutions == st.siteInstitutions[el.site := [NewSites]]
      && NewSites in r.value.table && el.site in r.value.table[NewSites]
  {
    var t := st.table;
    var m := st.siteInstitutions;
    if el.site in m then
      if el.action == Add then Success(State(ClaimSite(t, el.site, m[el.site]), m)) else Success(st)
    else if NewSites !in t then Failure(KeyError(NewSites))
    else
      var t' := if el.action == Add && el.site in t[NewSites] then t else t[NewSites := t[NewSites][el.site := EmptyEntry]];
      Success(State(t', m[el.site := [NewSites]]))
  }

  /** `proxies = set(existing) | hosts_to_add - hosts_to_remove`: removal wins over addition. */
  function LineProxies(existing: set<string>, add: set<string>, remove: set<string>): (r: set<string>)
    ensures forall h :: h in r <==> (h in existing || h in add) && h !in remove
  {
    (existing + add) - remove
  }

  /** One institution of the last loop: rewrite the site from its proxies, or drop it when none are left. */
  function ApplyOne(t: Table, institution: string, site: string, add: set<string>, remove: set<string>, res: Resolver): Result<Table>
  {
    if institution !in t then Failure(KeyError(institution))
    else if site !in t[institution] then Failure(KeyError(site))
    else
      var proxies := LineProxies(EntryKeys(t[institution][site]), add, remove);
      if proxies != {} then NewUpdate(t, institution, site, SortedElems(proxies), res)
      else Success(t[institution := t[institution] - {site}])
  }

  /** The last loop of a line, over its institutions. */
  function ApplyHosts(t: Table, institutions: seq<string>, site: string, add: set<string>, remove: set<string>, res: Resolver): Result<Table>
    decreases |institutions|
  {
    if institutions == [] then Success(t)
    else
      match ApplyOne(t, institutions[0], site, add, remove, res)
      case Failure(e) => Failure(e)
      case Success(t') => ApplyHosts(t', institutions[1..], site, add, remove, res)
  }

  /**
   * For one institution: an empty result drops the site; otherwise the entry is
   * replaced whole by the host dict of the sorted proxies, and nothing else changes.
   */
  lemma ApplyOneEffect(t: Table, institution: string, site: string, add: set<string>, remove: set<string>, res: Resolver)
    requires institution in t && site in t[institution]
    ensures var proxies := LineProxies(EntryKeys(t[institution][site]), add, remove);
      var r := ApplyOne(t, institution, site, add, remove, res);
      && (proxies == {} ==> r == Success(t[institution := t[institution] - {site}]))
      && (proxies != {} && r.Success? ==> r.value[institution][site] == Hosts(HostsDict(SortedElems(proxies), res).value))
      && (r.Success? ==> forall i :: i in t && i != institution ==> r.value[i] == t[i])
  {
  }

  /**
   * The sites of one institution after the last loop: the site dropped when no proxy is
   * left, otherwise its entry replaced by the host dict of the sorted proxies.
   */
  function SitesAfter(sites: map<string, SiteEntry>, site: string, add: set<string>, remove: set<string>, res: Resolver): Result<map<string, SiteEntry>>
    requires site in sites
  {
    var proxies := LineProxies(EntryKeys(sites[site]), add, remove);
    if proxies == {} then Success(sites - {site})
    else
      match HostsDict(SortedElems(proxies), res)
      case Failure(e) => Failure(e)
      case Success(d) => Success(sites[site := Hosts(d)])
  }

  /** One institution of the last loop gets exactly its new sites; the others are kept. */
  lemma ApplyOneSitesAfter(t: Table, institution: string, site: string, add: set<string>, remove: set<string>, res: Resolver)
    requires institution in t && site in t[institution]
    ensures var r := ApplyOne(t, institution, site, add, remove, res);
      var after := SitesAfter(t[institution], site, add, remove, res);
      && (r.Success? <==> after.Success?)
      && (r.Success? ==>
            && r.value.Keys == t.Keys && r.value[institution] == after.value
            && forall i :: i in t && i != institution ==> r.value[i] == t[i])
  {
    var sites := t[institution];
    var proxies := LineProxies(EntryKeys(sites[site]), add, remove);
    if proxies == {} {
      var t' := t[institution := sites - {site}];
      assert ApplyOne(t, institution, site, add, remove, res) == Success(t');
      assert SitesAfter(sites, site, add, remove, res) == Success(sites - {site});
    } else {
      var d := HostsDict(SortedElems(proxies), res);
      if d.Success? {
        var t' := t[institution := sites[site := Hosts(d.value)]];
        assert PutSite(t, institution, site, Hosts(d.value)) == t';
        assert ApplyOne(t, institution, site, add, remove, res) == Success(t');
        assert SitesAfter(sites, site, add, remove, res) == Success(sites[site := Hosts(d.value)]);
      }
    }
  }

  /**
   * The last loop over several institutions that all list the site, each once: it fails
   * exactly when one of them fails, and otherwise each of them gets its own new sites
   * while every other institution is as it was.
   */
  lemma ApplyHostsEffect(t: Table, institutions: seq<string>, site: string, add: set<string>, remove: set<string>, res: Resolver)
    requires forall i, j :: 0 <= i < j < |institutions| ==> institutions[i] != institutions[j]
    requires forall i :: i in institutions ==> i in t && site in t[i]
    ensures var r := ApplyHosts(t, institutions, site, add, remove, res);
      && (r.Success? <==> forall i :: i in institutions ==> SitesAfter(t[i], site, add, remove, res).Success?)
      && (r.Success? ==>
            && r.value.Keys == t.Keys
            && (forall i :: i in institutions ==> r.value[i] == SitesAfter(t[i], site, add, remove, res).value)
            && (forall i :: i in t && i !in institutions ==> r.value[i] == t[i]))
  {
    ApplyHostsFails(t, institutions, site, add, remove, res);
    ApplyHostsKeeps(t, institutions, site, add, remove, res);
    ApplyHostsWrites(t, institutions, site, add, remove, res);
  }

  /** The head of a list of distinct institutions is not in its tail, and the tail is distinct. */
  lemma DistinctTail(institutions: seq<string>)
    requires institutions != []
    requires forall i, j :: 0 <= i < j < |institutions| ==> institutions[i] != institutions[j]
    ensures institutions[0] !in institutions[1..]
    ensures forall i, j :: 0 <= i < j < |institutions[1..]| ==> institutions[1..][i] != institutions[1..][j]
  {
    var rest := institutions[1..];
    forall k | 0 <= k < |rest| ensures rest[k] != institutions[0] {
      assert rest[k] == institutions[k + 1];
    }
  }

  lemma {:induction false} ApplyHostsFails(t: Table, institutions: seq<string>, site: string, add: set<string>, remove: set<string>, res: Resolver)
    requires forall i, j :: 0 <= i < j < |institutions| ==> institutions[i] != institutions[j]
    requires forall i :: i in institutions ==> i in t && site in t[i]
    ensures ApplyHosts(t, institutions, site, add, remove, res).Success? <==>
      forall i :: i in institutions ==> SitesAfter(t[i], site, add, remove, res).Success?
    decreases |institutions|
  {
    if institutions != [] {
      var i0 := institutions[0];
      assert i0 in institutions;
      assert forall x :: x in institutions <==> x == i0 || x in institutions[1..];
      DistinctTail(institutions);
      ApplyOneSitesAfter(t, i0, site, add, remove, res);
      var one := ApplyOne(t, i0, site, add, remove, res);
      if one.Success? {
        ApplyHostsFails(one.value, institutions[1..], site, add, remove, res);
      }
    }
  }

  lemma {:induction false} ApplyHostsKeeps(t: Table, institutions: seq<string>, site: string, add: set<string>, remove: set<string>, res: Resolver)
    requires forall i, j :: 0 <= i < j < |institutions| ==> institutions[i] != institutions[j]
    requires forall i :: i in institutions ==> i in t && site in t[i]
    ensures var r := ApplyHosts(t, institutions, site, add, remove, res);
      r.Success? ==> r.value.Keys == t.Keys && forall i :: i in t && i !in institutions ==> r.value[i] == t[i]
    decreases |institutions|
  {
    if institutions != [] {
      var i0 := institutions[0];
      assert forall x :: x in institutions <==> x == i0 || x in institutions[1..];
      DistinctTail(institutions);
      ApplyOneSitesAfter(t, i0, site, add, remove, res);
      var one := ApplyOne(t, i0, site, add, remove, res);
      if one.Success? {
        ApplyHostsKeeps(one.value, institutions[1..], site, add, remove, res);
      }
    }
  }

  lemma {:induction false} ApplyHostsWrites(t: Table, institutions: seq<string>, site: string, add: set<string>, remove: set<string>, res: Resolver)
    requires forall i, j :: 0 <= i < j < |institutions| ==> institutions[i] != institutions[j]
    requires forall i :: i in institutions ==> i in t && site in t[i]
    ensures var r := ApplyHosts(t, institutions, site, add, remove, res);
      r.Success? ==> forall i :: i in institutions ==>
        && SitesAfter(t[i], site, add, remove, res).Success?
        && i in r.value && r.value[i] == SitesAfter(t[i], site, add, remove, res).value
    decreases |institutions|
  {
    if institutions != [] {
      var i0 := institutions[0];
      var rest := institutions[1..];
      assert forall x :: x in institutions <==> x == i0 || x in rest;
      DistinctTail(institutions);
      ApplyOneSitesAfter(t, i0, site, add, remove, res);
      var one := ApplyOne(t, i0, site, add, remove, res);
      if one.Success? {
        ApplyHostsWrites(one.value, rest, site, add, remove, res);
        ApplyHostsKeeps(one.value, rest, site, add, remove, res);
      }
    }
  }

  /** A line's step: nothing for a skipped line, the removals of a `-` line, otherwise register and apply. */
  function StepLine(st: State, line: string, res: Resolver): Result<State>
  {
    match ParseExceptionLine(line)
    case None => Success(st)
    case Some(el) =>
      if el.action == Remove then
        if el.site in st.siteInstitutions then
          match RemoveSite(st.table, el.site, st.siteInstitutions[el.site])
          case Failure(e) => Failure(e)
          case Success(t) => Success(State(t, st.siteInstitutions))
        else Success(st)
      else
        match Register(st, el)
        case Failure(e) => Failure(e)
        case Success(reg) =>
          match ApplyHosts(reg.table, reg.siteInstitutions[el.site], el.site, el.add, el.remove, res)
          case Failure(e) => Failure(e)
          case Success(t) => Success(State(t, reg.siteInstitutions))
  }

  /** The lines from `st` on. */
  function LinesFrom(st: State, lines: seq<string>, res: Resolver): Result<State>
    decreases |lines|
  {
    if lines == [] then Success(st)
    else
      match StepLine(st, lines[0], res)
      case Failure(e) => Failure(e)
      case Success(st') => LinesFrom(st', lines[1..], res)
  }

  /** The first line's step, then the rest: what the loop of `parse_exception_list_new` does per line. */
  lemma LinesFromStep(st: State, lines: seq<string>, res: Resolver)
    requires lines != []
    ensures StepLine(st, lines[0], res).Failure? ==> LinesFrom(st, lines, res) == Failure(StepLine(st, lines[0], res).error)
    ensures StepLine(st, lines[0], res).Success? ==> LinesFrom(st, lines, res) == LinesFrom(StepLine(st, lines[0], res).value, lines[1..], res)
  {
  }

  /** `sites_squids_list['NewSites'] = {}`: that institution emptied or created, the others kept. */
  function ResetNewSites(t: Table): (r: Table)
    ensures r.Keys == t.Keys + {NewSites} && r[NewSites] == map[]
    ensures forall i :: i in t && i != NewSites ==> r[i] == t[i]
  {
    t[NewSites := map[]]
  }

  /** The state before the first line: the inverse map of the table, then `NewSites` reset. */
  function InitialState(t: Table): State
  {
    State(ResetNewSites(t), InverseMap(t))
  }

  /** What `parse_exception_list_new` leaves in the table, and the map it writes out. */
  function ExceptionListNew(t: Table, lines: seq<string>, res: Resolver): Result<State>
  {
    LinesFrom(InitialState(t), lines, res)
  }

  /** A `-` line drops the site from every institution mapped to it and changes nothing else; an unmapped site is left alone. */
  lemma RemoveLineEffect(st: State, line: string, res: Resolver)
    requires ParseExceptionLine(line).Some? && ParseExceptionLine(line).value.action == Remove
    ensures var site := ParseExceptionLine(line).value.site;
      var r := StepLine(st, line, res);
      && (site !in st.siteInstitutions ==> r == Success(st))
      && (site in st.siteInstitutions && r.Success? ==>
            && r.value.siteInstitutions == st.siteInstitutions
            && r.value.table.Keys == st.table.Keys
            && (forall i :: i in st.siteInstitutions[site] ==> site !in r.value.table[i])
            && (forall i :: i in st.table && i !in st.siteInstitutions[site] ==> r.value.table[i] == st.table[i]))
  {
    var site := ParseExceptionLine(line).value.site;
    if site in st.siteInstitutions && StepLine(st, line, res).Success? {
      RemoveSiteEffect(st.table, site, st.siteInstitutions[site]);
    }
  }

  /** An unregistered site on a `+` or unmarked line is recorded as belonging to `NewSites` only. */
  lemma UnregisteredSiteGoesToNewSites(st: State, line: string, res: Resolver)
    requires ParseExceptionLine(line).Some? && ParseExceptionLine(line).value.action != Remove
    requires ParseExceptionLine(line).value.site !in st.siteInstitutions
    ensures var site := ParseExceptionLine(line).value.site;
      var r := StepLine(st, line, res);
      r.Success? ==> r.value.siteInstitutions == st.siteInstitutions[site := [NewSites]]
  {
  }

  // ---------------------------------------------------------------------------
  // parse_geolist
  // ---------------------------------------------------------------------------

  /** One chunk written with the old or the new writer: its site is added under its institution, nothing else changes. */
  function ChunkUpdate(t: Table, c: seq<string>, isNew: bool, res: Resolver): (r: Result<Table>)
    requires |c| == 6
    ensures r.Success? ==>
      && r.value.Keys == t.Keys + {ChunkInstitution(c)}
      && c[2] in r.value[ChunkInstitution(c)]
      && (forall i :: i in t && i != ChunkInstitution(c) ==> r.value[i] == t[i])
      && forall i :: i in t ==> t[i].Keys <= r.value[i].Keys
  {
    var proxies := DirectFreeProxies(c[4]);
    if isNew then NewUpdate(t, ChunkInstitution(c), c[2], proxies, res)
    else OldUpdate(t, ChunkInstitution(c), c[2], proxies, res)
  }

  /** The table after the chunks from `chunks` on, with the old or the new writer. */
  function GeolistFrom(t: Table, chunks: seq<seq<string>>, isNew: bool, res: Resolver): Result<Table>
    requires forall c :: c in chunks ==> |c| == 6
    decreases |chunks|
  {
    if chunks == [] then Success(t)
    else
      match ChunkUpdate(t, chunks[0], isNew, res)
      case Failure(e) => Failure(e)
      case Success(t') => GeolistFrom(t', chunks[1..], isNew, res)
  }

  /** One pass of the chunk loop: the first chunk is written, or its error is the result. */
  lemma GeolistFromStep(t: Table, chunks: seq<seq<string>>, isNew: bool, res: Resolver)
    requires chunks != [] && forall c :: c in chunks ==> |c| == 6
    ensures forall c :: c in chunks[1..] ==> |c| == 6
    ensures var next := ChunkUpdate(t, chunks[0], isNew, res);
      && (next.Failure? ==> GeolistFrom(t, chunks, isNew, res) == Failure(next.error))
      && (next.Success? ==> GeolistFrom(t, chunks, isNew, res) == GeolistFrom(next.value, chunks[1..], isNew, res))
  {
    assert forall c :: c in chunks[1..] ==> c in chunks;
  }

  /** Every six-token chunk leaves its site under its institution; institutions of no chunk are kept as they were. */
  lemma GeolistFromEffect(t: Table, chunks: seq<seq<string>>, isNew: bool, res: Resolver)
    requires forall c :: c in chunks ==> |c| == 6
    ensures var r := GeolistFrom(t, chunks, isNew, res);
      r.Success? ==>
        && t.Keys <= r.value.Keys
        && (forall c :: c in chunks ==> ChunkInstitution(c) in r.value && c[2] in r.value[ChunkInstitution(c)])
        && (forall i :: i in t && (forall c :: c in chunks ==> ChunkInstitution(c) != i) ==> r.value[i] == t[i])
  {
    var r := GeolistFrom(t, chunks, isNew, res);
    if r.Success? {
      forall i | i in t ensures i in r.value {
        InstitutionKept(t, chunks, isNew, res, i);
      }
      forall c | c in chunks ensures ChunkInstitution(c) in r.value && c[2] in r.value[ChunkInstitution(c)] {
        ChunkSiteWritten(t, chunks, isNew, res, c);
      }
      forall i | i in t && (forall c :: c in chunks ==> ChunkInstitution(c) != i) ensures r.value[i] == t[i] {
        UnnamedKept(t, chunks, isNew, res, i);
      }
    }
  }

  /** An institution once present is not removed by later chunks. */
  lemma {:induction false} InstitutionKept(t: Table, chunks: seq<seq<string>>, isNew: bool, res: Resolver, institution: string)
    requires forall c :: c in chunks ==> |c| == 6
    requires institution in t
    ensures var r := GeolistFrom(t, chunks, isNew, res);
      r.Success? ==> institution in r.value
    decreases |chunks|
  {
    if chunks != [] {
      GeolistFromStep(t, chunks, isNew, res);
      var next := ChunkUpdate(t, chunks[0], isNew, res);
      if next.Success? {
        InstitutionKept(next.value, chunks[1..], isNew, res, institution);
      }
    }
  }

  /** The site of a chunk is under its institution once all chunks are loaded. */
  lemma {:induction false} ChunkSiteWritten(t: Table, chunks: seq<seq<string>>, isNew: bool, res: Resolver, c: seq<string>)
    requires forall c :: c in chunks ==> |c| == 6
    requires c in chunks
    ensures var r := GeolistFrom(t, chunks, isNew, res);
      r.Success? ==> ChunkInstitution(c) in r.value && c[2] in r.value[ChunkInstitution(c)]
    decreases |chunks|
  {
    if c == chunks[0] {
      FirstChunkSiteWritten(t, chunks, isNew, res);
    } else {
      GeolistFromStep(t, chunks, isNew, res);
      var next := ChunkUpdate(t, chunks[0], isNew, res);
      if next.Success? {
        assert c in chunks[1..];
        ChunkSiteWritten(next.value, chunks[1..], isNew, res, c);
      }
    }
  }

  /** The first chunk's site, once written, survives the remaining chunks. */
  lemma FirstChunkSiteWritten(t: Table, chunks: seq<seq<string>>, isNew: bool, res: Resolver)
    requires chunks != [] && forall c :: c in chunks ==> |c| == 6
    ensures var r := GeolistFrom(t, chunks, isNew, res);
      r.Success? ==> ChunkInstitution(chunks[0]) in r.value && chunks[0][2] in r.value[ChunkInstitution(chunks[0])]
  {
    GeolistFromStep(t, chunks, isNew, res);
    var next := ChunkUpdate(t, chunks[0], isNew, res);
    if next.Success? {
      SitesKept(next.value, chunks[1..], isNew, res, ChunkInstitution(chunks[0]), chunks[0][2]);
    }
  }

  /** An institution no chunk names keeps its sites exactly as they were. */
  lemma {:induction false} UnnamedKept(t: Table, chunks: seq<seq<string>>, isNew: bool, res: Resolver, institution: string)
    requires forall c :: c in chunks ==> |c| == 6
    requires institution in t && forall c :: c in chunks ==> ChunkInstitution(c) != institution
    ensures var r := GeolistFrom(t, chunks, isNew, res);
      r.Success? ==> institution in r.value && r.value[institution] == t[institution]
    decreases |chunks|
  {
    if chunks != [] {
      GeolistFromStep(t, chunks, isNew, res);
      var next := ChunkUpdate(t, chunks[0], isNew, res);
      if next.Success? {
        assert chunks[0] in chunks;
        assert forall c :: c in chunks[1..] ==> c in chunks;
        UnnamedKept(next.value, chunks[1..], isNew, res, institution);
      }
    }
  }

  /** A site once written is not removed by later chunks. */
  lemma {:induction false} SitesKept(t: Table, chunks: seq<seq<string>>, isNew: bool, res: Resolver, institution: string, site: string)
    requires forall c :: c in chunks ==> |c| == 6
    requires institution in t && site in t[institution]
    ensures var r := GeolistFrom(t, chunks, isNew, res);
      r.Success? ==> institution in r.value && site in r.value[institution]
    decreases |chunks|
  {
    if chunks != [] {
      GeolistFromStep(t, chunks, isNew, res);
      var next := ChunkUpdate(t, chunks[0], isNew, res);
      if next.Success? {
        SitesKept(next.value, chunks[1..], isNew, res, institution, site);
      }
    }
  }

  // ---------------------------------------------------------------------------
  // The table as an object
  // ---------------------------------------------------------------------------

  /** The inner loop of `init_site_to_institutions_mapping`. */
  method AddSitesLoop(m: map<string, seq<string>>, institution: string, sites: seq<string>) returns (r: map<string, seq<string>>)
    ensures r == AddSites(m, institution, sites)
  {
    r := m;
    var j := 0;
    while j < |sites|
      invariant 0 <= j <= |sites|
      invariant AddSites(r, institution, sites[j..]) == AddSites(m, institution, sites)
    {
      assert sites[j..][1..] == sites[j + 1..];
      r := AppendInstitution(r, sites[j], institution);
      j := j + 1;
    }
  }

  /** The loop of `update_institute_hostnames_new` building `hosts_dict`. */
  method HostsDictLoop(proxies: seq<string>, res: Resolver) returns (r: Result<map<string, HostData>>)
    ensures r == HostsDict(proxies, res)
  {
    var hosts: map<string, HostData> := map[];
    var j := 0;
    while j < |proxies|
      invariant 0 <= j <= |proxies|
      invariant HostsFrom(hosts, proxies[j..], res) == HostsDict(proxies, res)
    {
      assert proxies[j..][1..] == proxies[j + 1..];
      var spec := SpecHost(proxies[j]);
      if spec.Failure? {
        return Failure(spec.error);
      }
      hosts := hosts[spec.value.host := HostData(spec.value.port, SimpleGetHostIpv4(spec.value.host, res))];
      j := j + 1;
    }
    return Success(hosts);
  }

  /** `sites_squids_list` of validate_parse_exceptionlist.py: institution → site → entry. */
  class SquidsList {
    var table: Table

    constructor (t: Table)
      ensures table == t
    {
      table := t;
    }

    /** `update_institute_hostnames`: the old-format entry of the site, written over any previous one. */
    method UpdateInstituteHostnames(institute: string, site: string, proxies: seq<string>, res: Resolver) returns (err: Option<PyError>)
      modifies this
      ensures var r := OldUpdate(old(table), institute, site, proxies, res);
        && (r.Success? ==> err == None && table == r.value)
        && (r.Failure? ==> err == Some(r.error) && table == old(table))
    {
      var entry := ProxyListsEntry(proxies, HostLookup(res));
      if entry.Failure? {
        return Some(entry.error);
      }
      table := PutSite(table, institute, site, Lists(entry.value));
      return None;
    }

    /** `update_institute_hostnames_new`: the host dict of the site, written over any previous entry. */
    method UpdateInstituteHostnamesNew(institute: string, site: string, proxies: seq<string>, res: Resolver) returns (err: Option<PyError>)
      modifies this
      ensures var r := NewUpdate(old(table), institute, site, proxies, res);
        && (r.Success? ==> err == None && table == r.value)
        && (r.Failure? ==> err == Some(r.error) && table == old(table))
    {
      var hosts := HostsDictLoop(proxies, res);
      if hosts.Failure? {
        return Some(hosts.error);
      }
      table := PutSite(table, institute, site, Hosts(hosts.value));
      return None;
    }

    /** `parse_geolist`: every six-token chunk written with the old or the new writer. */
    method ParseGeolist(raw: string, isNew: bool, res: Resolver) returns (err: Option<PyError>)
      modifies this
      ensures var r := GeolistFrom(old(table), GeoChunks(raw), isNew, res);
        && (r.Success? ==> err == None && table == r.value)
        && (r.Failure? ==> err == Some(r.error))
    {
      var rest := GeoChunks(raw);
      while rest != []
        invariant forall c :: c in rest ==> |c| == 6
        invariant GeolistFrom(table, rest, isNew, res) == GeolistFrom(old(table), GeoChunks(raw), isNew, res)
        decreases |rest|
      {
        var e := rest[0];
        GeolistFromStep(table, rest, isNew, res);
        var institute := ChunkInstitution(e);
        var proxies := DirectFreeProxies(e[4]);
        if isNew {
          err := UpdateInstituteHostnamesNew(institute, e[2], proxies, res);
        } else {
          err := UpdateInstituteHostnames(institute, e[2], proxies, res);
        }
        if err.Some? {
          return;
        }
        rest := rest[1..];
      }
      return None;
    }

    /** `init_site_to_institutions_mapping` without a mapping file: the nested loops over the table. */
    method InitSiteToInstitutionsMapping() returns (m: map<string, seq<string>>)
      ensures m == InverseMap(table)
    {
      var institutions := SortedElems(table.Keys);
      m := map[];
      var i := 0;
      while i < |institutions|
        invariant 0 <= i <= |institutions|
        invariant AddInstitutions(m, table, institutions[i..]) == InverseMap(table)
      {
        assert institutions[i..][1..] == institutions[i + 1..];
        m := AddSitesLoop(m, institutions[i], SortedElems(table[institutions[i]].Keys));
        i := i + 1;
      }
    }

    /** `-` line: `pop(site, None)` from each institution mapped to the site. */
    method RemoveSiteLoop(site: string, institutions: seq<string>) returns (err: Option<PyError>)
      modifies this
      ensures var r := RemoveSite(old(table), site, institutions);
        && (r.Success? ==> err == None && table == r.value)
        && (r.Failure? ==> err == Some(r.error))
    {
      var i := 0;
      while i < |institutions|
        invariant 0 <= i <= |institutions|
        invariant RemoveSite(table, site, institutions[i..]) == RemoveSite(old(table), site, institutions)
      {
        assert institutions[i..][1..] == institutions[i + 1..];
        if institutions[i] !in table {
          return Some(KeyError(institutions[i]));
        }
        table := table[institutions[i] := table[institutions[i]] - {site}];
        i := i + 1;
      }
      return None;
    }

    /** `+` line on a mapped site: the loop that creates missing institutions and sites. */
    method ClaimSiteLoop(site: string, institutions: seq<string>)
      modifies this
      ensures table == ClaimSite(old(table), site, institutions)
    {
      var i := 0;
      while i < |institutions|
        invariant 0 <= i <= |institutions|
        invariant ClaimSite(table, site, institutions[i..]) == ClaimSite(old(table), site, institutions)
      {
        assert institutions[i..][1..] == institutions[i + 1..];
        var institution := institutions[i];
        if institution !in table {
          table := table[institution := map[site := EmptyEntry]];
        } else if site !in table[institution] {
          table := table[institution := table[institution][site := EmptyEntry]];
        }
        i := i + 1;
      }
    }

    /** The last loop of a line: each institution's site rewritten from its proxies, or dropped. */
    method ApplyHostsLoop(institutions: seq<string>, site: string, add: set<string>, remove: set<string>, res: Resolver)
      returns (err: Option<PyError>)
      modifies this
      ensures var r := ApplyHosts(old(table), institutions, site, add, remove, res);
        && (r.Success? ==> err == None && table == r.value)
        && (r.Failure? ==> err == Some(r.error))
    {
      var i := 0;
      while i < |institutions|
        invariant 0 <= i <= |institutions|
        invariant ApplyHosts(table, institutions[i..], site, add, remove, res) == ApplyHosts(old(table), institutions, site, add, remove, res)
      {
        assert institutions[i..][1..] == institutions[i + 1..];
        var institution := institutions[i];
        if institution !in table {
          return Some(KeyError(institution));
        }
        if site !in table[institution] {
          return Some(KeyError(site));
        }
        var proxies := LineProxies(EntryKeys(table[institution][site]), add, remove);
        if proxies != {} {
          err := UpdateInstituteHostnamesNew(institution, site, SortedElems(proxies), res);
          if err.Some? {
            return;
          }
        } else {
          table := table[institution := table[institution] - {site}];
        }
        i := i + 1;
      }
      return None;
    }

    /** One line of `parse_exception_list_new`. */
    method ApplyLine(line: string, m: map<string, seq<string>>, res: Resolver) returns (err: Option<PyError>, m': map<string, seq<string>>)
      modifies this
      ensures var r := StepLine(State(old(table), m), line, res);
        && (r.Success? ==> err == None && table == r.value.table && m' == r.value.siteInstitutions)
        && (r.Failure? ==> err == Some(r.error))
    {
      m' := m;
      var parsed := ParseExceptionLine(line);
      if parsed.None? {
        return None, m;
      }
      var el := parsed.value;
      if el.action == Remove {
        err := None;
        if el.site in m {
          err := RemoveSiteLoop(el.site, m[el.site]);
        }
        return;
      }
      var institutions: seq<string>;
      if el.site in m {
        institutions := m[el.site];
        if el.action == Add {
          ClaimSiteLoop(el.site, institutions);
        }
      } else {
        if NewSites !in table {
          return Some(KeyError(NewSites)), m;
        }
        institutions := [NewSites];
        m' := m[el.site := institutions];
        if !(el.action == Add && el.site in table[NewSites]) {
          table := table[NewSites := table[NewSites][el.site := EmptyEntry]];
        }
      }
      ghost var reg := Register(State(old(table), m), el);
      assert reg == Success(State(table, m'));
      err := ApplyHostsLoop(institutions, el.site, el.add, el.remove, res);
    }

    /**
     * `parse_exception_list_new`: the inverse map is built, `NewSites` is reset, and
     * the lines are applied in order. The final site → institutions map is returned.
     */
    method ParseExceptionListNew(lines: seq<string>, res: Resolver) returns (err: Option<PyError>, siteInstitutions: map<string, seq<string>>)
      modifies this
      ensures var r := ExceptionListNew(old(table), lines, res);
        && (r.Success? ==> err == None && table == r.value.table && siteInstitutions == r.value.siteInstitutions)
        && (r.Failure? ==> err == Some(r.error))
    {
      siteInstitutions := InitSiteToInstitutionsMapping();
      table := ResetNewSites(table);
      ghost var goal := ExceptionListNew(old(table), lines, res);
      var i := 0;
      while i < |lines|
        invariant 0 <= i <= |lines|
        invariant LinesFrom(State(table, siteInstitutions), lines[i..], res) == goal
      {
        ghost var before := State(table, siteInstitutions);
        assert lines[i..][1..] == lines[i + 1..];
        LinesFromStep(before, lines[i..], res);
        var next;
        err, next := ApplyLine(lines[i], siteInstitutions, res);
        if err.Some? {
          return;
        }
        siteInstitutions := next;
        i := i + 1;
      }
      assert lines[i..] == [];
      return None, siteInstitutions;
    }
  }
}
