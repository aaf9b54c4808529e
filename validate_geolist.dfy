/**
 * validate_parse_geolist.py: the validator that reads the geolist twice, once with
 * the original line-by-line parser (`parse_geolist_original`, a small state machine
 * over `<Directory>` nesting levels) and once with the newer token-chunk parser
 * (`parse_geolist_new`), so the two institution → site → proxies tables can be
 * compared. `socket.gethostbyname_ex` is an injected `byName` lookup that is `None`
 * when the lookup fails; a file is its sequence of lines.
 */
module GeoListValidator {
  import opened Results
  import opened PyText
  import opened StrOrder
  import opened FailoverTopology
  import opened FailoverGeoList
  import opened ProxyTables

  type GeoTable = map<string, map<string, SiteProxies>>

  /** The address list that stands for a host that does not resolve. */
  const NoAddress: string := "0.0.0.0"

  /** `simple_get_host_ipv4`: the addresses of `gethostbyname_ex`, or the sentinel on error. */
  function HostIps(host: string, byName: string -> Option<seq<string>>): (r: seq<string>)
    ensures byName(host).None? ==> r == [NoAddress]
    ensures byName(host).Some? ==> r == byName(host).value
  {
    match byName(host)
    case Some(ips) => ips
    case None => [NoAddress]
  }

  // ---------------------------------------------------------------------------
  // parse_geolist_original: the line scanner
  // ---------------------------------------------------------------------------

  /**
   * The scanner's state between lines: the table, the `<Directory>` depth, and the
   * last institution key and site seen (`None` while the Python name is unbound).
   */
  datatype Scan = Scan(table: GeoTable, level: int, key: Option<string>, site: Option<string>)

  /** `oneline.split(' "/')[1].split('">')[0]`: the institution of a `<Directory "/...">` line. */
  function DirectoryKey(oneline: string): (r: Result<string>)
    ensures r.Success? <==> |SplitOn(oneline, " \"/")| >= 2
    ensures r.Success? ==> !Contains(r.value, "\">")
  {
    var parts := SplitOn(oneline, " \"/");
    if |parts| < 2 then Failure(IndexError("oneline.split(' \"/')[1]"))
    else
      var key := SplitOn(parts[1], "\">")[0];
      FirstPieceAvoids(parts[1], "\">");
      Success(key)
  }

  /** The first piece of a split holds no separator. */
  lemma FirstPieceAvoids(s: string, sep: string)
    requires sep != []
    ensures !Contains(SplitOn(s, sep)[0], sep)
  {
    match Find(s, sep)
    case None =>
    case Some(k) =>
      var p := s[..k];
      forall j: nat | OccursAt(p, sep, j) ensures false {
        assert p[j..j + |sep|] == s[j..j + |sep|];
        assert OccursAt(s, sep, j);
      }
  }

  /** `entry[1].split('"')[1]`: the quoted value of a directive. */
  function Quoted(entry: seq<string>): (r: Result<string>)
    ensures r.Success? <==> |entry| >= 2 && |SplitOn(entry[1], "\"")| >= 2
    ensures r.Success? ==> '"' !in r.value
  {
    if |entry| < 2 then Failure(IndexError("entry[1]"))
    else
      var parts := SplitOn(entry[1], "\"");
      if |parts| < 2 then Failure(IndexError("entry[1].split('\"')[1]"))
      else
        assert ['"'] == "\"";
        SplitOnCharPieces(entry[1], '"');
        assert parts[1] in parts;
        Success(parts[1])
  }

  /** `value.replace(';DIRECT','').replace('|',';').split(';')`: the proxies of an `HttpProxy` line. */
  function HttpProxyList(value: string): seq<string>
  {
    SplitOn(Replace(Replace(value, ";DIRECT", ""), "|", ";"), ";")
  }

  /** A `Proxy+` line names a host and no protocol or port: it becomes `++++://host:++++`. */
  function ProxyPlusUrl(value: string): string
  {
    "++++://" + value + ":++++"
  }

  /**
   * `sitesquid[key][site]["HttpProxy"]` extended and replaced by the sorted distinct
   * list: the merged list is sorted, holds each proxy once, and holds exactly the old
   * proxies and the new ones.
   */
  function MergeProxies(s: Scan, proxies: seq<string>): (r: Result<Scan>)
    ensures r.Success? <==> s.key.Some? && s.site.Some? && s.key.value in s.table && s.site.value in s.table[s.key.value]
    ensures r.Success? ==>
      && r.value.level == s.level && r.value.key == s.key && r.value.site == s.site
      && r.value.table.Keys == s.table.Keys
      && (forall k :: k in s.table && k != s.key.value ==> r.value.table[k] == s.table[k])
      && r.value.table[s.key.value].Keys == s.table[s.key.value].Keys
      && (forall x :: x in s.table[s.key.value] && x != s.site.value ==> r.value.table[s.key.value][x] == s.table[s.key.value][x])
      && var merged := r.value.table[s.key.value][s.site.value].httpProxy;
        && StrictlySorted(merged)
        && forall p :: p in merged <==> p in s.table[s.key.value][s.site.value].httpProxy || p in proxies
  {
    if s.key.None? then Failure(NameError("key"))
    else if s.site.None? then Failure(NameError("site"))
    else
      var key := s.key.value;
      var site := s.site.value;
      if key !in s.table then Failure(KeyError(key))
      else if site !in s.table[key] then Failure(KeyError(site))
      else
        var e := s.table[key][site];
        var merged := SortedSet(e.httpProxy + proxies);
        Success(s.(table := s.table[key := s.table[key][site := e.(httpProxy := merged)]]))
  }

  /**
   * One line of `parse_geolist_original`. Blank lines are skipped. `<Directory` lines
   * go down a level, and on the second level name the institution; `</Directory>`
   * goes up. On the third level `LocalSite` names the site, created empty when new,
   * and `HttpProxy` and `Proxy+` add proxies to it; every other line is ignored.
   */
  function ScanLine(s: Scan, line: string): Result<Scan>
  {
    var oneline := Strip(line, Whitespace);
    if oneline == [] then Success(s)
    else
      StrippedHasWords(line);
      var entry := Words(oneline);
      var elem := entry[0];
      if elem == "<Directory" || elem == "<Directory>" then
        if s.level == 1 then Success(s.(level := 2))
        else if s.level == 2 then
          match DirectoryKey(oneline)
          case Failure(e) => Failure(e)
          case Success(key) =>
            var t := if key in s.table then s.table else s.table[key := map[]];
            Success(s.(table := t, level := 3, key := Some(key)))
        else Success(s)
      else if elem == "</Directory>" then Success(s.(level := s.level - 1))
      else if s.level != 3 then Success(s)
      else if elem == "LocalSite" then
        match Quoted(entry)
        case Failure(e) => Failure(e)
        case Success(site) =>
          if s.key.None? then Failure(NameError("key"))
          else if s.key.value !in s.table then Failure(KeyError(s.key.value))
          else
            var sites := s.table[s.key.value];
            var t := if site in sites then s.table else s.table[s.key.value := sites[site := SiteProxies([], [], [])]];
            Success(s.(table := t, site := Some(site)))
      else if elem == "HttpProxy" then
        match Quoted(entry)
        case Failure(e) => Failure(e)
        case Success(value) => MergeProxies(s, HttpProxyList(value))
      else if elem == "Proxy+" then
        match Quoted(entry)
        case Failure(e) => Failure(e)
        case Success(value) => MergeProxies(s, [ProxyPlusUrl(value)])
      else Success(s)
  }

  /** The scanner over the lines from `s` on. */
  function ScanFrom(s: Scan, lines: seq<string>): Result<Scan>
    decreases |lines|
  {
    if lines == [] then Success(s)
    else
      match ScanLine(s, lines[0])
      case Failure(e) => Failure(e)
      case Success(s') => ScanFrom(s', lines[1..])
  }

  /** The first token of a non-blank line. */
  function FirstToken(line: string): string
    requires Strip(line, Whitespace) != []
  {
    StrippedHasWords(line);
    Words(Strip(line, Whitespace))[0]
  }

  /**
   * `<Directory` goes from level 1 to 2; on level 2 it names the institution, created
   * empty when new, and goes to level 3; on any other level it changes nothing.
   * `</Directory>` goes up one level.
   */
  lemma DirectoryLevels(s: Scan, line: string)
    requires Strip(line, Whitespace) != []
    ensures FirstToken(line) in {"<Directory", "<Directory>"} && s.level == 1 ==> ScanLine(s, line) == Success(s.(level := 2))
    ensures FirstToken(line) in {"<Directory", "<Directory>"} && s.level != 1 && s.level != 2 ==> ScanLine(s, line) == Success(s)
    ensures FirstToken(line) in {"<Directory", "<Directory>"} && s.level == 2 && ScanLine(s, line).Success? ==>
      var key := DirectoryKey(Strip(line, Whitespace)).value;
      var r := ScanLine(s, line).value;
      && r.level == 3 && r.key == Some(key) && r.site == s.site
      && r.table == (if key in s.table then s.table else s.table[key := map[]])
    ensures FirstToken(line) == "</Directory>" ==> ScanLine(s, line) == Success(s.(level := s.level - 1))
  {
    StrippedHasWords(line);
  }

  /**
   * On level 3 a `LocalSite` line makes its quoted value the current site, creating
   * it with empty lists only when the institution does not have it yet.
   */
  lemma LocalSiteEffect(s: Scan, line: string)
    requires Strip(line, Whitespace) != [] && s.level == 3
    requires FirstToken(line) == "LocalSite" && ScanLine(s, line).Success?
    ensures var site := Quoted(Words(Strip(line, Whitespace))).value;
      var r := ScanLine(s, line).value;
      && s.key.Some? && s.key.value in s.table
      && r.level == 3 && r.key == s.key && r.site == Some(site)
      && (site in s.table[s.key.value] ==> r.table == s.table)
      && (site !in s.table[s.key.value] ==> r.table == s.table[s.key.value := s.table[s.key.value][site := SiteProxies([], [], [])]])
  {
    StrippedHasWords(line);
  }

  /** On level 3 a line with any other first token changes nothing. */
  lemma UnknownKeywordIgnored(s: Scan, line: string)
    requires Strip(line, Whitespace) != [] && s.level == 3
    requires FirstToken(line) !in {"<Directory", "<Directory>", "</Directory>", "LocalSite", "HttpProxy", "Proxy+"}
    ensures ScanLine(s, line) == Success(s)
  {
    StrippedHasWords(line);
  }

  /** Outside the third level only the `<Directory` and `</Directory>` lines matter. */
  lemma OutsideSitesIgnored(s: Scan, line: string)
    requires s.level != 3
    requires Strip(line, Whitespace) != []
    requires FirstToken(line) !in {"<Directory", "<Directory>", "</Directory>"}
    ensures ScanLine(s, line) == Success(s)
  {
    StrippedHasWords(line);
  }

  /** A blank line changes nothing. */
  lemma BlankLineIgnored(s: Scan, line: string)
    requires Strip(line, Whitespace) == []
    ensures ScanLine(s, line) == Success(s)
  {
  }

  /**
   * On level 3 an `HttpProxy` line merges the proxies of its quoted value into the
   * current site, and a `Proxy+` line merges the one URL made from its quoted host.
   */
  lemma ProxyLineMerges(s: Scan, line: string)
    requires Strip(line, Whitespace) != [] && s.level == 3
    requires FirstToken(line) in {"HttpProxy", "Proxy+"}
    ensures var q := Quoted(Words(Strip(line, Whitespace)));
      && (q.Failure? ==> ScanLine(s, line) == Failure(q.error))
      && (q.Success? && FirstToken(line) == "HttpProxy" ==> ScanLine(s, line) == MergeProxies(s, HttpProxyList(q.value)))
      && (q.Success? && FirstToken(line) == "Proxy+" ==> ScanLine(s, line) == MergeProxies(s, [ProxyPlusUrl(q.value)]))
  {
    StrippedHasWords(line);
  }

  /** One scanned line removes no institution and no site. */
  lemma ScanLineKeeps(s: Scan, line: string, key: string, site: string)
    requires key in s.table && site in s.table[key]
    ensures ScanLine(s, line).Success? ==> key in ScanLine(s, line).value.table && site in ScanLine(s, line).value.table[key]
  {
    if Strip(line, Whitespace) == [] {
      BlankLineIgnored(s, line);
    } else {
      var elem := FirstToken(line);
      if elem in {"<Directory", "<Directory>", "</Directory>"} {
        DirectoryLevels(s, line);
      } else if s.level != 3 {
        OutsideSitesIgnored(s, line);
      } else if elem == "LocalSite" {
        if ScanLine(s, line).Success? {
          LocalSiteEffect(s, line);
        }
      } else if elem in {"HttpProxy", "Proxy+"} {
        ProxyLineMerges(s, line);
      } else {
        UnknownKeywordIgnored(s, line);
      }
    }
  }

  /** Institutions and sites, once created, are never removed by the scanner. */
  lemma {:induction false} ScanFromKeeps(s: Scan, lines: seq<string>, key: string, site: string)
    requires key in s.table && site in s.table[key]
    ensures ScanFrom(s, lines).Success? ==> key in ScanFrom(s, lines).value.table && site in ScanFrom(s, lines).value.table[key]
    decreases |lines|
  {
    if lines != [] {
      var next := ScanLine(s, lines[0]);
      if next.Success? {
        ScanLineKeeps(s, lines[0], key, site);
        ScanFromKeeps(next.value, lines[1..], key, site);
      }
    }
  }

  /**
   * The original and the new parser cut an `HttpProxy` value the same way: turning
   * `|` into `;` and splitting on `;` gives the same pieces as turning `;` into `|`
   * and splitting on `|`.
   */
  lemma HttpProxyListAgrees(value: string)
    ensures HttpProxyList(value) == SplitOn(Replace(Replace(value, ";DIRECT", ""), ";", "|"), "|")
    ensures SortedSet(HttpProxyList(value)) == DirectFreeProxies(value)
  {
    var s := Replace(value, ";DIRECT", "");
    assert [';'] == ";" && ['|'] == "|";
    ReplaceCharIsMapChar(s, '|', ';');
    ReplaceCharIsMapChar(s, ';', '|');
    var t := MapChar(s, '|', ';');
    var u := MapChar(s, ';', '|');
    SplitOnCorresponding(t, ';', u, '|');
    var a := HttpProxyList(value);
    var b := SplitOn(Replace(s, ";", "|"), "|");
    assert a == b;
    var r := DirectFreeProxies(value);
    assert forall p :: p in r <==> p in b;
    StrictlySortedUnique(SortedSet(a), r);
  }

  // ---------------------------------------------------------------------------
  // parse_geolist_original: the pass that fills ProxyHost and ProxyIP
  // ---------------------------------------------------------------------------

  /** `entry.split('://')`, and when that has two pieces or more, the second up to its first `:`. */
  function UrlHost(proxy: string): (r: Option<string>)
    ensures r.Some? ==> ':' !in r.value
  {
    var parts := SplitOn(proxy, "://");
    if |parts| > 1 then
      assert [':'] == ":";
      SplitOnCharPieces(parts[1], ':');
      assert SplitOn(parts[1], ":")[0] in SplitOn(parts[1], ":");
      Some(SplitOn(parts[1], ":")[0])
    else None
  }

  /** What one proxy adds to `ProxyHost`: its host, or nothing without a `://`. */
  function HostPart(proxy: string): seq<string>
  {
    match UrlHost(proxy)
    case Some(h) => [h]
    case None => []
  }

  /** What one proxy adds to `ProxyIP`: the addresses of its host, or nothing without a `://`. */
  function IpPart(proxy: string, byName: string -> Option<seq<string>>): seq<string>
  {
    match UrlHost(proxy)
    case Some(h) => HostIps(h, byName)
    case None => []
  }

  /** The `ProxyHost` list: the host of each proxy that has a `://`, in order. */
  function ProxyHosts(proxies: seq<string>): seq<string>
    decreases |proxies|
  {
    if proxies == [] then [] else HostPart(proxies[0]) + ProxyHosts(proxies[1..])
  }

  /** The `ProxyIP` list: the addresses of those hosts, concatenated in order. */
  function ProxyIps(proxies: seq<string>, byName: string -> Option<seq<string>>): seq<string>
    decreases |proxies|
  {
    if proxies == [] then [] else IpPart(proxies[0], byName) + ProxyIps(proxies[1..], byName)
  }

  /** A site entry with its host and address lists rebuilt from its proxies. */
  function Rebuild(e: SiteProxies, byName: string -> Option<seq<string>>): SiteProxies
  {
    SiteProxies(e.httpProxy, ProxyHosts(e.httpProxy), ProxyIps(e.httpProxy, byName))
  }

  /** Every site of every institution rebuilt. */
  function RebuiltSites(sites: map<string, SiteProxies>, byName: string -> Option<seq<string>>): (r: map<string, SiteProxies>)
    ensures r.Keys == sites.Keys
  {
    map s | s in sites :: Rebuild(sites[s], byName)
  }

  function Rebuilt(t: GeoTable, byName: string -> Option<seq<string>>): (r: GeoTable)
    ensures r.Keys == t.Keys
  {
    map k | k in t :: RebuiltSites(t[k], byName)
  }

  /** The table `parse_geolist_original` returns. */
  function GeolistOriginal(t: GeoTable, lines: seq<string>, byName: string -> Option<seq<string>>): Result<GeoTable>
  {
    match ScanFrom(Scan(t, 1, None, None), lines)
    case Failure(e) => Failure(e)
    case Success(s) => Success(Rebuilt(s.table, byName))
  }

  /** A host is listed exactly when some proxy has it after its `://`. */
  lemma {:induction false} ProxyHostsExact(proxies: seq<string>, host: string)
    ensures host in ProxyHosts(proxies) <==> exists p :: p in proxies && UrlHost(p) == Some(host)
    ensures |ProxyHosts(proxies)| <= |proxies|
    decreases |proxies|
  {
    if proxies != [] {
      ProxyHostsExact(proxies[1..], host);
      assert forall p :: p in proxies <==> p == proxies[0] || p in proxies[1..];
    }
  }

  /** The hosts keep the order of their proxies: the list of a concatenation is the concatenation of the lists. */
  lemma {:induction false} ProxyHostsAppend(a: seq<string>, b: seq<string>)
    ensures ProxyHosts(a + b) == ProxyHosts(a) + ProxyHosts(b)
    decreases |a|
  {
    if a != [] {
      assert (a + b)[1..] == a[1..] + b;
      ProxyHostsAppend(a[1..], b);
    } else {
      assert a + b == b;
    }
  }

  /** An address is listed exactly when it is an address of a listed host. */
  lemma {:induction false} ProxyIpsExact(proxies: seq<string>, byName: string -> Option<seq<string>>, ip: string)
    ensures ip in ProxyIps(proxies, byName) <==> exists p :: p in proxies && UrlHost(p).Some? && ip in HostIps(UrlHost(p).value, byName)
    decreases |proxies|
  {
    if proxies != [] {
      ProxyIpsExact(proxies[1..], byName, ip);
      assert forall p :: p in proxies <==> p == proxies[0] || p in proxies[1..];
    }
  }

  /** The first `://` of `proto://rest` is right after a protocol without `:`. */
  lemma FindSchemeSeparator(proto: string, rest: string)
    requires ':' !in proto
    ensures Find(proto + "://" + rest, "://") == Some(|proto|)
  {
    var sep := "://";
    var s := proto + sep + rest;
    assert s[|proto|..|proto| + 3] == sep;
    assert OccursAt(s, sep, |proto|);
    forall j: nat | j < |proto| ensures !OccursAt(s, sep, j) {
      assert s[j] == proto[j];
      if j + 3 <= |s| {
        assert s[j..j + 3][0] == s[j];
      }
    }
  }

  /** `host:tail` holds no `://` when neither part has a `:` and the tail has no `/`. */
  lemma NoSchemeSeparator(host: string, tail: string)
    requires ':' !in host && ':' !in tail && '/' !in tail
    ensures !Contains(host + ":" + tail, "://")
  {
    var sep := "://";
    var rest := host + ":" + tail;
    forall j: nat | j + 3 <= |rest| ensures rest[j] != ':' || rest[j + 1] != '/' {
      if j < |host| {
        assert rest[j] == host[j];
      } else if j > |host| {
        assert rest[j] == tail[j - |host| - 1];
      } else {
        assert rest[j + 1] == tail[0];
      }
    }
    forall j: nat | j + 3 <= |rest| ensures !OccursAt(rest, sep, j) {
      assert rest[j..j + 3][0] == rest[j] && rest[j..j + 3][1] == rest[j + 1];
    }
  }

  /** The host of `proto://host:tail` is `host` when neither part has a `:` and the tail has no `/`. */
  lemma UrlHostOf(proto: string, host: string, tail: string)
    requires ':' !in proto && ':' !in host && ':' !in tail && '/' !in tail
    ensures UrlHost(proto + "://" + host + ":" + tail) == Some(host)
  {
    var rest := host + ":" + tail;
    var s := proto + "://" + rest;
    assert proto + "://" + host + ":" + tail == s;
    FindSchemeSeparator(proto, rest);
    SplitOnCut(s, "://", |proto|);
    assert s[..|proto|] == proto && s[|proto| + 3..] == rest;
    NoSchemeSeparator(host, tail);
    SplitOnAbsent(rest, "://");
    assert SplitOn(s, "://") == [proto, rest];
    assert [':'] == ":";
    assert host + [':'] + tail == rest;
    SplitOnCharCons(host, ':', tail);
  }

  /** A `Proxy+` entry lists the named host itself. */
  lemma ProxyPlusHost(value: string)
    requires ':' !in value
    ensures UrlHost(ProxyPlusUrl(value)) == Some(value)
  {
    UrlHostOf("++++", value, "++++");
    assert ProxyPlusUrl(value) == "++++" + "://" + value + ":" + "++++";
  }

  // ---------------------------------------------------------------------------
  // parse_geolist_new and its update_institute_hostnames
  // ---------------------------------------------------------------------------

  /** `simple_get_host_ipv4` as a lookup function. */
  function ByNameLookup(byName: string -> Option<seq<string>>): string -> seq<string>
  {
    (h: string) => HostIps(h, byName)
  }

  /** The table after the chunks from `chunks` on, each written by `update_institute_hostnames`. */
  function GeolistNewFrom(t: GeoTable, chunks: seq<seq<string>>, byName: string -> Option<seq<string>>): Result<GeoTable>
    requires forall c :: c in chunks ==> |c| == 6
    decreases |chunks|
  {
    if chunks == [] then Success(t)
    else
      var c := chunks[0];
      match ProxyListsEntry(DirectFreeProxies(c[4]), ByNameLookup(byName))
      case Failure(e) => Failure(e)
      case Success(entry) => GeolistNewFrom(PutSite(t, ChunkInstitution(c), c[2], entry), chunks[1..], byName)
  }

  /** One chunk of `parse_geolist_new`, then the rest. */
  lemma GeolistNewStep(t: GeoTable, chunks: seq<seq<string>>, byName: string -> Option<seq<string>>)
    requires chunks != [] && forall c :: c in chunks ==> |c| == 6
    ensures forall c :: c in chunks[1..] ==> |c| == 6
    ensures var c := chunks[0];
      var entry := ProxyListsEntry(DirectFreeProxies(c[4]), ByNameLookup(byName));
      && (entry.Failure? ==> GeolistNewFrom(t, chunks, byName) == Failure(entry.error))
      && (entry.Success? ==> GeolistNewFrom(t, chunks, byName) == GeolistNewFrom(PutSite(t, ChunkInstitution(c), c[2], entry.value), chunks[1..], byName))
  {
    assert forall c :: c in chunks[1..] ==> c in chunks;
  }

  /** The entry `update_institute_hostnames` writes for one chunk, or the error it raises. */
  function ChunkEntry(c: seq<string>, byName: string -> Option<seq<string>>): Result<SiteProxies>
    requires |c| == 6
  {
    ProxyListsEntry(DirectFreeProxies(c[4]), ByNameLookup(byName))
  }

  /** Chunk `c` writes the site `site` of institution `institution`. */
  predicate Names(c: seq<string>, institution: string, site: string)
    requires |c| == 6
  {
    ChunkInstitution(c) == institution && c[2] == site
  }

  /** The chunk loader fails exactly when the entry of some chunk fails. */
  lemma {:induction false} GeolistNewFails(t: GeoTable, chunks: seq<seq<string>>, byName: string -> Option<seq<string>>)
    requires forall c :: c in chunks ==> |c| == 6
    ensures GeolistNewFrom(t, chunks, byName).Failure? <==> exists c :: c in chunks && ChunkEntry(c, byName).Failure?
    decreases |chunks|
  {
    if chunks != [] {
      GeolistNewStep(t, chunks, byName);
      var entry := ChunkEntry(chunks[0], byName);
      assert chunks[0] in chunks;
      if entry.Success? {
        GeolistNewFails(PutSite(t, ChunkInstitution(chunks[0]), chunks[0][2], entry.value), chunks[1..], byName);
        assert forall c :: c in chunks ==> c == chunks[0] || c in chunks[1..];
        assert forall c :: c in chunks[1..] ==> c in chunks;
      }
    }
  }

  /** A site already in the table stays there. */
  lemma {:induction false} GeolistNewSitePresent(t: GeoTable, chunks: seq<seq<string>>, byName: string -> Option<seq<string>>,
                                                 institution: string, site: string)
    requires forall c :: c in chunks ==> |c| == 6
    requires institution in t && site in t[institution]
    ensures var r := GeolistNewFrom(t, chunks, byName);
      r.Success? ==> institution in r.value && site in r.value[institution]
    decreases |chunks|
  {
    if chunks != [] {
      GeolistNewStep(t, chunks, byName);
      var entry := ChunkEntry(chunks[0], byName);
      if entry.Success? {
        GeolistNewSitePresent(PutSite(t, ChunkInstitution(chunks[0]), chunks[0][2], entry.value), chunks[1..], byName, institution, site);
      }
    }
  }

  /** A site no chunk names keeps its entry. */
  lemma {:induction false} GeolistNewSiteUntouched(t: GeoTable, chunks: seq<seq<string>>, byName: string -> Option<seq<string>>,
                                                   institution: string, site: string)
    requires forall c :: c in chunks ==> |c| == 6
    requires institution in t && site in t[institution]
    requires forall c :: c in chunks ==> !Names(c, institution, site)
    ensures var r := GeolistNewFrom(t, chunks, byName);
      r.Success? ==> institution in r.value && site in r.value[institution] && r.value[institution][site] == t[institution][site]
    decreases |chunks|
  {
    if chunks != [] {
      GeolistNewStep(t, chunks, byName);
      var entry := ChunkEntry(chunks[0], byName);
      if entry.Success? {
        var next := PutSite(t, ChunkInstitution(chunks[0]), chunks[0][2], entry.value);
        assert chunks[0] in chunks;
        assert forall c :: c in chunks[1..] ==> c in chunks;
        assert !Names(chunks[0], institution, site);
        PutSiteKeepsOthers(t, ChunkInstitution(chunks[0]), chunks[0][2], entry.value, institution, site);
        GeolistNewSiteUntouched(next, chunks[1..], byName, institution, site);
      }
    }
  }

  /** Every chunk's site ends up under the chunk's institution. */
  lemma {:induction false} GeolistNewChunkWritten(t: GeoTable, chunks: seq<seq<string>>, byName: string -> Option<seq<string>>, c: seq<string>)
    requires forall c :: c in chunks ==> |c| == 6
    requires c in chunks
    ensures var r := GeolistNewFrom(t, chunks, byName);
      r.Success? ==> ChunkInstitution(c) in r.value && c[2] in r.value[ChunkInstitution(c)]
    decreases |chunks|
  {
    GeolistNewStep(t, chunks, byName);
    var entry := ChunkEntry(chunks[0], byName);
    if entry.Success? {
      var next := PutSite(t, ChunkInstitution(chunks[0]), chunks[0][2], entry.value);
      if c == chunks[0] {
        GeolistNewSitePresent(next, chunks[1..], byName, ChunkInstitution(c), c[2]);
      } else {
        assert c in chunks[1..];
        GeolistNewChunkWritten(next, chunks[1..], byName, c);
      }
    }
  }

  /** The entry of a site is the one the last chunk naming it wrote. */
  lemma {:induction false} GeolistNewLastWriter(t: GeoTable, chunks: seq<seq<string>>, byName: string -> Option<seq<string>>, k: nat)
    requires forall c :: c in chunks ==> |c| == 6
    requires k < |chunks|
    requires forall d :: d in chunks[k + 1..] ==> !Names(d, ChunkInstitution(chunks[k]), chunks[k][2])
    ensures var r := GeolistNewFrom(t, chunks, byName);
      var c := chunks[k];
      r.Success? ==>
        && ChunkEntry(c, byName).Success?
        && ChunkInstitution(c) in r.value && c[2] in r.value[ChunkInstitution(c)]
        && r.value[ChunkInstitution(c)][c[2]] == ChunkEntry(c, byName).value
    decreases |chunks|
  {
    GeolistNewStep(t, chunks, byName);
    var entry := ChunkEntry(chunks[0], byName);
    if entry.Success? {
      var next := PutSite(t, ChunkInstitution(chunks[0]), chunks[0][2], entry.value);
      if k == 0 {
        GeolistNewSiteUntouched(next, chunks[1..], byName, ChunkInstitution(chunks[0]), chunks[0][2]);
      } else {
        assert chunks[1..][k - 1] == chunks[k];
        assert chunks[1..][k - 1 + 1..] == chunks[k + 1..];
        GeolistNewLastWriter(next, chunks[1..], byName, k - 1);
        GeolistNewFails(next, chunks[1..], byName);
        assert chunks[k] in chunks[1..];
      }
    }
  }

  /** An institution no chunk names keeps its sites exactly as they were. */
  lemma {:induction false} GeolistNewUnnamedKept(t: GeoTable, chunks: seq<seq<string>>, byName: string -> Option<seq<string>>,
                                                 institution: string)
    requires forall c :: c in chunks ==> |c| == 6
    requires institution in t && forall c :: c in chunks ==> ChunkInstitution(c) != institution
    ensures var r := GeolistNewFrom(t, chunks, byName);
      r.Success? ==> institution in r.value && r.value[institution] == t[institution]
    decreases |chunks|
  {
    if chunks != [] {
      GeolistNewStep(t, chunks, byName);
      var entry := ChunkEntry(chunks[0], byName);
      if entry.Success? {
        assert chunks[0] in chunks;
        assert forall c :: c in chunks[1..] ==> c in chunks;
        GeolistNewUnnamedKept(PutSite(t, ChunkInstitution(chunks[0]), chunks[0][2], entry.value), chunks[1..], byName, institution);
      }
    }
  }

  /** Institutions are never removed by the chunk loader. */
  lemma {:induction false} GeolistNewKeepsInstitutions(t: GeoTable, chunks: seq<seq<string>>, byName: string -> Option<seq<string>>)
    requires forall c :: c in chunks ==> |c| == 6
    ensures var r := GeolistNewFrom(t, chunks, byName);
      r.Success? ==> t.Keys <= r.value.Keys
    decreases |chunks|
  {
    if chunks != [] {
      GeolistNewStep(t, chunks, byName);
      var entry := ChunkEntry(chunks[0], byName);
      if entry.Success? {
        GeolistNewKeepsInstitutions(PutSite(t, ChunkInstitution(chunks[0]), chunks[0][2], entry.value), chunks[1..], byName);
      }
    }
  }

  /**
   * What `parse_geolist_new` leaves in the table: every chunk's site under its institution,
   * holding the entry of the last chunk that names that site; institutions no chunk names
   * are as they were, and no institution is lost.
   */
  lemma GeolistNewEffect(t: GeoTable, chunks: seq<seq<string>>, byName: string -> Option<seq<string>>)
    requires forall c :: c in chunks ==> |c| == 6
    ensures var r := GeolistNewFrom(t, chunks, byName);
      r.Success? ==>
        && t.Keys <= r.value.Keys
        && (forall c :: c in chunks ==> ChunkInstitution(c) in r.value && c[2] in r.value[ChunkInstitution(c)])
        && (forall k :: 0 <= k < |chunks| && (forall d :: d in chunks[k + 1..] ==> !Names(d, ChunkInstitution(chunks[k]), chunks[k][2])) ==>
              && ChunkEntry(chunks[k], byName).Success?
              && ChunkInstitution(chunks[k]) in r.value && chunks[k][2] in r.value[ChunkInstitution(chunks[k])]
              && r.value[ChunkInstitution(chunks[k])][chunks[k][2]] == ChunkEntry(chunks[k], byName).value)
        && (forall i :: i in t && (forall c :: c in chunks ==> ChunkInstitution(c) != i) ==> i in r.value && r.value[i] == t[i])
  {
    GeolistNewKeepsInstitutions(t, chunks, byName);
    AllChunksWritten(t, chunks, byName);
    AllLastWriters(t, chunks, byName);
    AllUnnamedKept(t, chunks, byName);
  }

  lemma AllChunksWritten(t: GeoTable, chunks: seq<seq<string>>, byName: string -> Option<seq<string>>)
    requires forall c :: c in chunks ==> |c| == 6
    ensures var r := GeolistNewFrom(t, chunks, byName);
      r.Success? ==> forall c :: c in chunks ==> ChunkInstitution(c) in r.value && c[2] in r.value[ChunkInstitution(c)]
  {
    forall c | c in chunks
      ensures var r := GeolistNewFrom(t, chunks, byName);
        r.Success? ==> ChunkInstitution(c) in r.value && c[2] in r.value[ChunkInstitution(c)]
    {
      GeolistNewChunkWritten(t, chunks, byName, c);
    }
  }

  lemma AllLastWriters(t: GeoTable, chunks: seq<seq<string>>, byName: string -> Option<seq<string>>)
    requires forall c :: c in chunks ==> |c| == 6
    ensures var r := GeolistNewFrom(t, chunks, byName);
      r.Success? ==> forall k :: 0 <= k < |chunks| && (forall d :: d in chunks[k + 1..] ==> !Names(d, ChunkInstitution(chunks[k]), chunks[k][2])) ==>
        && ChunkEntry(chunks[k], byName).Success?
        && ChunkInstitution(chunks[k]) in r.value && chunks[k][2] in r.value[ChunkInstitution(chunks[k])]
        && r.value[ChunkInstitution(chunks[k])][chunks[k][2]] == ChunkEntry(chunks[k], byName).value
  {
    forall k: nat | k < |chunks| && (forall d :: d in chunks[k + 1..] ==> !Names(d, ChunkInstitution(chunks[k]), chunks[k][2]))
      ensures var r := GeolistNewFrom(t, chunks, byName);
        r.Success? ==>
          && ChunkEntry(chunks[k], byName).Success?
          && ChunkInstitution(chunks[k]) in r.value && chunks[k][2] in r.value[ChunkInstitution(chunks[k])]
          && r.value[ChunkInstitution(chunks[k])][chunks[k][2]] == ChunkEntry(chunks[k], byName).value
    {
      GeolistNewLastWriter(t, chunks, byName, k);
    }
  }

  lemma AllUnnamedKept(t: GeoTable, chunks: seq<seq<string>>, byName: string -> Option<seq<string>>)
    requires forall c :: c in chunks ==> |c| == 6
    ensures var r := GeolistNewFrom(t, chunks, byName);
      r.Success? ==> forall i :: i in t && (forall c :: c in chunks ==> ChunkInstitution(c) != i) ==> i in r.value && r.value[i] == t[i]
  {
    forall i | i in t && (forall c :: c in chunks ==> ChunkInstitution(c) != i)
      ensures var r := GeolistNewFrom(t, chunks, byName);
        r.Success? ==> i in r.value && r.value[i] == t[i]
    {
      GeolistNewUnnamedKept(t, chunks, byName, i);
    }
  }

  /** In the new table every listed address is an address of one of the site's hosts. */
  lemma GeolistNewEntryAddresses(field: string, byName: string -> Option<seq<string>>, ip: string)
    requires ProxyListsEntry(DirectFreeProxies(field), ByNameLookup(byName)).Success?
    ensures var e := ProxyListsEntry(DirectFreeProxies(field), ByNameLookup(byName)).value;
      ip in e.proxyIP <==> exists i :: 0 <= i < |e.proxyHost| && ip in HostIps(e.proxyHost[i], byName)
  {
    ProxyListsEntryAddresses(DirectFreeProxies(field), ByNameLookup(byName), ip);
  }

  /** The decimal strings of the indices below `n`. */
  function IndexKeys(n: nat): set<string>
  {
    set i | 0 <= i < n :: NatToString(i)
  }

  /** No two indices share a decimal string, so `n` indices give `n` keys. */
  lemma {:induction false} IndexKeysSize(n: nat)
    ensures |IndexKeys(n)| == n
  {
    if n > 0 {
      IndexKeysSize(n - 1);
      assert IndexKeys(n) == IndexKeys(n - 1) + {NatToString(n - 1)};
      if NatToString(n - 1) in IndexKeys(n - 1) {
        var i :| 0 <= i < n - 1 && NatToString(n - 1) == NatToString(i);
        NatToStringInjective(i, n - 1);
        assert false;
      }
    }
  }

  /** `list_to_dict`: the list keyed by the decimal strings of its indices. */
  function ListToDict(l: seq<string>): (r: map<string, string>)
    ensures r.Keys == IndexKeys(|l|)
    ensures forall i :: 0 <= i < |l| ==> r[NatToString(i)] == l[i]
  {
    if l == [] then map[]
    else
      var prefix := ListToDict(l[..|l| - 1]);
      assert forall i :: 0 <= i < |l| - 1 ==> l[..|l| - 1][i] == l[i];
      NewIndexKey(|l| - 1);
      prefix[NatToString(|l| - 1) := l[|l| - 1]]
  }

  /** The key of a new last index differs from the keys of the indices before it. */
  lemma NewIndexKey(n: nat)
    ensures forall i :: 0 <= i < n ==> NatToString(i) != NatToString(n)
  {
    forall i | 0 <= i < n ensures NatToString(i) != NatToString(n) {
      if NatToString(i) == NatToString(n) {
        NatToStringInjective(i, n);
      }
    }
  }

  /** The dict has one entry per list element. */
  lemma ListToDictSize(l: seq<string>)
    ensures |ListToDict(l)| == |l|
  {
    IndexKeysSize(|l|);
    assert |ListToDict(l)| == |ListToDict(l).Keys|;
  }

  // ---------------------------------------------------------------------------
  // The table as an object
  // ---------------------------------------------------------------------------

  /** The inner loop of the rebuild pass over one site's proxies. */
  method RebuildEntry(e: SiteProxies, byName: string -> Option<seq<string>>) returns (r: SiteProxies)
    ensures r == Rebuild(e, byName)
  {
    var hosts: seq<string> := [];
    var ips: seq<string> := [];
    var proxies := e.httpProxy;
    var rest := proxies;
    while rest != []
      invariant hosts + ProxyHosts(rest) == ProxyHosts(proxies)
      invariant ips + ProxyIps(rest, byName) == ProxyIps(proxies, byName)
    {
      var hostPart, ipPart := HostPart(rest[0]), IpPart(rest[0], byName);
      var hostRest, ipRest := ProxyHosts(rest[1..]), ProxyIps(rest[1..], byName);
      assert ProxyHosts(rest) == hostPart + hostRest;
      assert ProxyIps(rest, byName) == ipPart + ipRest;
      ConcatAssoc(hosts, hostPart, hostRest);
      ConcatAssoc(ips, ipPart, ipRest);
      hosts := hosts + hostPart;
      ips := ips + ipPart;
      rest := rest[1..];
    }
    return SiteProxies(proxies, hosts, ips);
  }

  /** `m` with the entries at `keys` replaced, one after the other, by `f` of themselves. */
  function MapAt<V>(m: map<string, V>, keys: seq<string>, f: V -> V): map<string, V>
    requires forall k :: k in keys ==> k in m
    decreases |keys|
  {
    if keys == [] then m
    else
      assert forall k :: k in keys[1..] ==> k in keys;
      MapAt(m[keys[0] := f(m[keys[0]])], keys[1..], f)
  }

  /** Visiting each key once applies `f` exactly at those keys. */
  lemma {:induction false} MapAtEffect<V>(m: map<string, V>, keys: seq<string>, f: V -> V)
    requires forall k :: k in keys ==> k in m
    requires forall i, j :: 0 <= i < j < |keys| ==> keys[i] != keys[j]
    ensures MapAt(m, keys, f).Keys == m.Keys
    ensures forall k :: k in m ==> MapAt(m, keys, f)[k] == if k in keys then f(m[k]) else m[k]
    decreases |keys|
  {
    if keys != [] {
      var k0 := keys[0];
      var rest := keys[1..];
      assert forall k :: k in rest ==> k in keys;
      assert k0 !in rest by {
        forall i | 0 <= i < |rest| ensures rest[i] != k0 {
          assert rest[i] == keys[i + 1];
        }
      }
      assert forall k :: k in keys <==> k == k0 || k in rest;
      MapAtEffect(m[k0 := f(m[k0])], rest, f);
    }
  }

  /** One step of `MapAt`: the first key is updated, then the rest are visited. */
  lemma MapAtStep<V>(m: map<string, V>, keys: seq<string>, f: V -> V)
    requires keys != [] && forall k :: k in keys ==> k in m
    ensures forall k :: k in keys[1..] ==> k in m[keys[0] := f(m[keys[0]])]
    ensures MapAt(m, keys, f) == MapAt(m[keys[0] := f(m[keys[0]])], keys[1..], f)
  {
    assert forall k :: k in keys[1..] ==> k in keys;
  }

  /** Visiting every key of `m` in ascending order applies `f` to every entry. */
  lemma MapAtAll<V>(m: map<string, V>, f: V -> V)
    ensures MapAt(m, SortedElems(m.Keys), f).Keys == m.Keys
    ensures forall k :: k in m ==> MapAt(m, SortedElems(m.Keys), f)[k] == f(m[k])
  {
    var keys := SortedElems(m.Keys);
    StrictlySortedDistinct(keys);
    MapAtEffect(m, keys, f);
  }

  /** Two maps with the same keys and the same value at each key are equal. */
  lemma MapEq<V>(a: map<string, V>, b: map<string, V>)
    requires a.Keys == b.Keys && forall k :: k in a ==> a[k] == b[k]
    ensures a == b
  {
  }

  /** `Rebuild` as a function value. */
  function RebuildFn(byName: string -> Option<seq<string>>): SiteProxies -> SiteProxies
  {
    (e: SiteProxies) => Rebuild(e, byName)
  }

  /** Rebuilding every site of an institution, one site at a time, gives `RebuiltSites`. */
  lemma RebuildAllSites(entries: map<string, SiteProxies>, byName: string -> Option<seq<string>>)
    ensures MapAt(entries, SortedElems(entries.Keys), RebuildFn(byName)) == RebuiltSites(entries, byName)
  {
    MapAtAll(entries, RebuildFn(byName));
    MapEq(MapAt(entries, SortedElems(entries.Keys), RebuildFn(byName)), RebuiltSites(entries, byName));
  }

  /** `RebuiltSites` as a function value. */
  function RebuiltSitesFn(byName: string -> Option<seq<string>>): map<string, SiteProxies> -> map<string, SiteProxies>
  {
    (m: map<string, SiteProxies>) => RebuiltSites(m, byName)
  }

  /** Rebuilding every institution, one at a time, gives `Rebuilt`. */
  lemma RebuildAllInstitutions(t: GeoTable, byName: string -> Option<seq<string>>)
    ensures MapAt(t, SortedElems(t.Keys), RebuiltSitesFn(byName)) == Rebuilt(t, byName)
  {
    MapAtAll(t, RebuiltSitesFn(byName));
    MapEq(MapAt(t, SortedElems(t.Keys), RebuiltSitesFn(byName)), Rebuilt(t, byName));
  }

  /** The rebuild pass over the sites of one institution. */
  method RebuildSites(entries: map<string, SiteProxies>, byName: string -> Option<seq<string>>) returns (r: map<string, SiteProxies>)
    ensures r == RebuiltSites(entries, byName)
  {
    var sites := SortedElems(entries.Keys);
    ghost var f := RebuildFn(byName);
    ghost var goal := MapAt(entries, sites, f);
    r := entries;
    var rest := sites;
    while rest != []
      invariant forall k :: k in rest ==> k in r
      invariant MapAt(r, rest, f) == goal
    {
      var site := rest[0];
      MapAtStep(r, rest, f);
      var e := RebuildEntry(r[site], byName);
      assert e == f(r[site]);
      r := r[site := e];
      rest := rest[1..];
    }
    RebuildAllSites(entries, byName);
  }

  /** `sitesquid` of validate_parse_geolist.py: institution → site → old-format entry. */
  class SiteSquids {
    var sitesquid: GeoTable

    constructor (t: GeoTable)
      ensures sitesquid == t
    {
      sitesquid := t;
    }

    /** One line of the scanner, on the table field and the scanner's local variables. */
    method ScanOne(line: string, level: int, key: Option<string>, site: Option<string>)
      returns (err: Option<PyError>, level': int, key': Option<string>, site': Option<string>)
      modifies this
      ensures var r := ScanLine(Scan(old(sitesquid), level, key, site), line);
        && (r.Success? ==> err == None && r.value == Scan(sitesquid, level', key', site'))
        && (r.Failure? ==> err == Some(r.error))
    {
      level', key', site' := level, key, site;
      err := None;
      var oneline := Strip(line, Whitespace);
      if oneline == [] {
        return;
      }
      StrippedHasWords(line);
      var entry := Words(oneline);
      var elem := entry[0];
      if elem == "<Directory" || elem == "<Directory>" {
        if level == 1 {
          level' := 2;
        } else if level == 2 {
          var k := DirectoryKey(oneline);
          if k.Failure? {
            return Some(k.error), level', key', site';
          }
          if k.value !in sitesquid {
            sitesquid := sitesquid[k.value := map[]];
          }
          level', key' := 3, Some(k.value);
        }
      } else if elem == "</Directory>" {
        level' := level - 1;
      } else if level == 3 {
        if elem == "LocalSite" || elem == "HttpProxy" || elem == "Proxy+" {
          var value := Quoted(entry);
          if value.Failure? {
            return Some(value.error), level', key', site';
          }
          if elem == "LocalSite" {
            if key.None? {
              return Some(NameError("key")), level', key', site';
            }
            if key.value !in sitesquid {
              return Some(KeyError(key.value)), level', key', site';
            }
            if value.value !in sitesquid[key.value] {
              sitesquid := sitesquid[key.value := sitesquid[key.value][value.value := SiteProxies([], [], [])]];
            }
            site' := Some(value.value);
          } else {
            var proxies := if elem == "HttpProxy" then HttpProxyList(value.value) else [ProxyPlusUrl(value.value)];
            var merged := MergeProxies(Scan(sitesquid, level, key, site), proxies);
            if merged.Failure? {
              return Some(merged.error), level', key', site';
            }
            sitesquid := merged.value.table;
          }
        }
      }
    }

    /** The scanning loop of `parse_geolist_original`, from the first level with no key and no site. */
    method ScanLines(lines: seq<string>) returns (err: Option<PyError>)
      modifies this
      ensures var r := ScanFrom(Scan(old(sitesquid), 1, None, None), lines);
        && (r.Success? ==> err == None && sitesquid == r.value.table)
        && (r.Failure? ==> err == Some(r.error))
    {
      var level := 1;
      var key: Option<string> := None;
      var site: Option<string> := None;
      var i := 0;
      while i < |lines|
        invariant 0 <= i <= |lines|
        invariant ScanFrom(Scan(sitesquid, level, key, site), lines[i..]) == ScanFrom(Scan(old(sitesquid), 1, None, None), lines)
      {
        assert lines[i..][1..] == lines[i + 1..];
        err, level, key, site := ScanOne(lines[i], level, key, site);
        if err.Some? {
          return;
        }
        i := i + 1;
      }
      assert lines[i..] == [];
      return None;
    }

    /** The second pass of `parse_geolist_original`: every site of every institution rebuilt. */
    method RebuildAll(byName: string -> Option<seq<string>>)
      modifies this
      ensures sitesquid == Rebuilt(old(sitesquid), byName)
    {
      var keys := SortedElems(sitesquid.Keys);
      ghost var f := RebuiltSitesFn(byName);
      ghost var goal := MapAt(sitesquid, keys, f);
      var rest := keys;
      while rest != []
        invariant forall k :: k in rest ==> k in sitesquid
        invariant MapAt(sitesquid, rest, f) == goal
      {
        var key := rest[0];
        MapAtStep(sitesquid, rest, f);
        var entries := RebuildSites(sitesquid[key], byName);
        assert entries == f(sitesquid[key]);
        sitesquid := sitesquid[key := entries];
        rest := rest[1..];
      }
      RebuildAllInstitutions(old(sitesquid), byName);
    }

    /**
     * `parse_geolist_original`: the lines scanned from the first level, then every
     * site of every institution given its `ProxyHost` and `ProxyIP` lists.
     */
    method ParseGeolistOriginal(lines: seq<string>, byName: string -> Option<seq<string>>) returns (err: Option<PyError>)
      modifies this
      ensures var r := GeolistOriginal(old(sitesquid), lines, byName);
        && (r.Success? ==> err == None && sitesquid == r.value)
        && (r.Failure? ==> err == Some(r.error))
    {
      err := ScanLines(lines);
      if err.Some? {
        return;
      }
      RebuildAll(byName);
    }

    /** `update_institute_hostnames`: the old-format entry of the site, written over any previous one. */
    method UpdateInstituteHostnames(institute: string, site: string, proxies: seq<string>, byName: string -> Option<seq<string>>)
      returns (err: Option<PyError>)
      modifies this
      ensures var r := ProxyListsEntry(proxies, ByNameLookup(byName));
        && (r.Success? ==> err == None && sitesquid == PutSite(old(sitesquid), institute, site, r.value))
        && (r.Failure? ==> err == Some(r.error) && sitesquid == old(sitesquid))
    {
      var entry := ProxyListsEntry(proxies, ByNameLookup(byName));
      if entry.Failure? {
        return Some(entry.error);
      }
      sitesquid := PutSite(sitesquid, institute, site, entry.value);
      return None;
    }

    /** One pass of `parse_geolist_new`'s loop: the first chunk written, or the error it raises. */
    method UpdateFirstChunk(chunks: seq<seq<string>>, byName: string -> Option<seq<string>>) returns (err: Option<PyError>)
      requires chunks != [] && forall c :: c in chunks ==> |c| == 6
      modifies this
      ensures forall c :: c in chunks[1..] ==> |c| == 6
      ensures err.None? ==> GeolistNewFrom(sitesquid, chunks[1..], byName) == GeolistNewFrom(old(sitesquid), chunks, byName)
      ensures err.Some? ==> GeolistNewFrom(old(sitesquid), chunks, byName) == Failure(err.value)
    {
      var e := chunks[0];
      GeolistNewStep(sitesquid, chunks, byName);
      err := UpdateInstituteHostnames(ChunkInstitution(e), e[2], DirectFreeProxies(e[4]), byName);
    }

    /** `parse_geolist_new`: every six-token chunk written by `update_institute_hostnames`. */
    method ParseGeolistNew(raw: string, byName: string -> Option<seq<string>>) returns (err: Option<PyError>)
      modifies this
      ensures var r := GeolistNewFrom(old(sitesquid), GeoChunks(raw), byName);
        && (r.Success? ==> err == None && sitesquid == r.value)
        && (r.Failure? ==> err == Some(r.error))
    {
      err := UpdateChunks(GeoChunks(raw), byName);
    }

    /** The loop of `parse_geolist_new`: the chunks in order, stopping at the first that raises. */
    method UpdateChunks(chunks: seq<seq<string>>, byName: string -> Option<seq<string>>) returns (err: Option<PyError>)
      requires forall c :: c in chunks ==> |c| == 6
      modifies this
      ensures var r := GeolistNewFrom(old(sitesquid), chunks, byName);
        && (r.Success? ==> err == None && sitesquid == r.value)
        && (r.Failure? ==> err == Some(r.error))
    {
      ghost var goal := GeolistNewFrom(old(sitesquid), chunks, byName);
      var rest := chunks;
      while rest != []
        invariant forall c :: c in rest ==> |c| == 6
        invariant GeolistNewFrom(sitesquid, rest, byName) == goal
      {
        err := UpdateFirstChunk(rest, byName);
        if err.Some? {
          return;
        }
        rest := rest[1..];
      }
      return None;
    }
  }
}
