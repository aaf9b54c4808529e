/**
 * CMS site naming and host tagging in FailoverLib.py: `cms_site_name_split`, the
 * tier-compacted site strings of `CMSTagger._compact_sites`, the two maps
 * `CMSTagger.__init__` builds from the topology, and `assign_site_workernode`.
 * GeoIP's organisation-by-address lookup is an injected function.
 */
module FailoverTagger {
  import opened Results
  import opened PyText
  import opened StrOrder
  import opened FailoverHosts

  /** A CMS site name cut into its base (tier, country, name) and a short suffix. */
  datatype SiteSplit = SiteSplit(base: string, extra: string)

  /**
   * `cms_site_name_split`: `parts = name.split('_', 3)`. Three parts are the whole base;
   * a fourth part of at most two characters is the suffix, a longer one keeps the whole
   * name as base. Fewer than three parts fail at `parts[3]`.
   */
  function CmsSiteNameSplit(siteName: string): (r: Result<SiteSplit>)
    ensures r.Failure? <==> |SplitMax(siteName, "_", 3)| < 3
    ensures r.Success? ==>
      || (r.value.extra == "" && r.value.base == siteName)
      || (r.value.base + "_" + r.value.extra == siteName && |r.value.extra| <= 2)
  {
    var parts := SplitMax(siteName, "_", 3);
    JoinSplitMax(siteName, "_", 3);
    if |parts| == 3 then
      Success(SiteSplit(Join("_", parts), ""))
    else if |parts| < 3 then
      Failure(IndexError("parts[3]"))
    else if |parts[3]| > 2 then
      Success(SiteSplit(siteName, ""))
    else
      assert parts == parts[..3] + [parts[3]];
      JoinSnoc("_", parts[..3], parts[3]);
      Success(SiteSplit(Join("_", parts[..3]), parts[3]))
  }

  lemma Join3(a: string, b: string, c: string)
    ensures Join("_", [a, b, c]) == a + "_" + b + "_" + c
  {
    JoinCons("_", b, [c]);
    assert [a, b, c] == [a] + [b, c];
    JoinCons("_", a, [b, c]);
  }

  lemma UnderscoreRegroup(a: string, b: string, rest: string)
    ensures a + "_" + b + "_" + rest == a + ['_'] + (b + ['_'] + rest)
  {
    assert "_" == ['_'];
  }

  lemma SplitThree(a: string, b: string, rest: string, maxsplit: nat)
    requires '_' !in a && '_' !in b && maxsplit >= 2
    ensures SplitMax(a + "_" + b + "_" + rest, "_", maxsplit) == [a, b] + SplitMax(rest, "_", maxsplit - 2)
  {
    var tail := b + ['_'] + rest;
    UnderscoreRegroup(a, b, rest);
    SplitMaxCharCons(a, '_', tail, maxsplit);
    SplitMaxCharCons(b, '_', rest, maxsplit - 1);
    var later := SplitMax(rest, "_", maxsplit - 2);
    assert [a] + ([b] + later) == [a, b] + later;
  }

  /** A three-part name such as `T1_US_FNAL` is its own base, with no suffix. */
  lemma CmsSiteNameSplitThreeParts(tier: string, country: string, name: string)
    requires '_' !in tier && '_' !in country && '_' !in name
    ensures CmsSiteNameSplit(tier + "_" + country + "_" + name) == Success(SiteSplit(tier + "_" + country + "_" + name, ""))
  {
    SplitThree(tier, country, name, 3);
    SplitMaxCharAbsent(name, '_', 1);
    assert SplitMax(tier + "_" + country + "_" + name, "_", 3) == [tier, country, name];
    Join3(tier, country, name);
  }

  /**
   * With a fourth part, a suffix of at most two characters (`T2_US_FOO_XY`) is split off;
   * a longer one (`T2_CH_CERN_HLT`) leaves the whole name as base.
   */
  lemma CmsSiteNameSplitFourParts(tier: string, country: string, name: string, suffix: string)
    requires '_' !in tier && '_' !in country && '_' !in name
    ensures var whole := tier + "_" + country + "_" + name + "_" + suffix;
      CmsSiteNameSplit(whole) ==
        if |suffix| > 2 then Success(SiteSplit(whole, ""))
        else Success(SiteSplit(tier + "_" + country + "_" + name, suffix))
  {
    var whole := tier + "_" + country + "_" + name + "_" + suffix;
    assert whole == tier + "_" + country + "_" + (name + "_" + suffix);
    SplitThree(tier, country, name + "_" + suffix, 3);
    SplitMaxCharCons(name, '_', suffix, 1);
    assert SplitMax(suffix, "_", 0) == [suffix];
    var parts := SplitMax(whole, "_", 3);
    assert parts == [tier, country, name, suffix];
    assert parts[..3] == [tier, country, name];
    Join3(tier, country, name);
  }

  /** A name with a single underscore has no third part and fails. */
  lemma CmsSiteNameSplitTooShort(tier: string, name: string)
    requires '_' !in tier && '_' !in name
    ensures CmsSiteNameSplit(tier + "_" + name).Failure?
  {
    SplitMaxCharCons(tier, '_', name, 3);
    SplitMaxCharAbsent(name, '_', 2);
  }

  /** `T1_US_FOO` is its own base. */
  lemma CmsSiteNameSplitExampleThree()
    ensures CmsSiteNameSplit("T1_US_FOO") == Success(SiteSplit("T1_US_FOO", ""))
  {
    assert "T1_US_FOO" == "T1" + "_" + "US" + "_" + "FOO";
    CmsSiteNameSplitThreeParts("T1", "US", "FOO");
  }

  /** `T2_US_FOO_XY` splits off the suffix `XY`. */
  lemma CmsSiteNameSplitExampleSuffix()
    ensures CmsSiteNameSplit("T2_US_FOO_XY") == Success(SiteSplit("T2_US_FOO", "XY"))
  {
    assert "T2_US_FOO_XY" == "T2" + "_" + "US" + "_" + "FOO" + "_" + "XY";
    assert "T2_US_FOO" == "T2" + "_" + "US" + "_" + "FOO";
    CmsSiteNameSplitFourParts("T2", "US", "FOO", "XY");
  }

  /** `T2_US_FOO_XYZ`: a three-character fourth part is kept in the base. */
  lemma CmsSiteNameSplitExampleLong()
    ensures CmsSiteNameSplit("T2_US_FOO_XYZ") == Success(SiteSplit("T2_US_FOO_XYZ", ""))
  {
    assert "T2_US_FOO_XYZ" == "T2" + "_" + "US" + "_" + "FOO" + "_" + "XYZ";
    CmsSiteNameSplitFourParts("T2", "US", "FOO", "XYZ");
  }

  /** `(Tier, BaseSite)` of `_compact_sites`: the text before the first `_`, and the rest. */
  datatype TierBase = TierBase(tier: string, base: string)

  /**
   * `x = site.split('_', 2)`, `BaseSite = x[1] + '_' + x[2]`, `Tier = x[0]`. With fewer
   * than three parts the base is NaN and the group-by drops the row: None.
   */
  function SiteTierBase(site: string): (r: Option<TierBase>)
    ensures r.Some? ==> r.value.tier + "_" + r.value.base == site && '_' !in r.value.tier && '_' in r.value.base
  {
    var x := SplitMax(site, "_", 2);
    if |x| < 3 then None
    else
      JoinSplitMax(site, "_", 2);
      SplitMaxFirstPieces(site);
      Join3(x[0], x[1], x[2]);
      assert x == [x[0], x[1], x[2]];
      assert (x[1] + "_" + x[2])[|x[1]|] == '_';
      Some(TierBase(x[0], x[1] + "_" + x[2]))
  }

  lemma SplitMaxFirstPieces(site: string)
    ensures var x := SplitMax(site, "_", 2);
      |x| == 3 ==> '_' !in x[0] && '_' !in x[1]
  {
    var x := SplitMax(site, "_", 2);
    match Find(site, "_")
    case None =>
      assert x == [site];
    case Some(k) =>
      forall i | 0 <= i < k ensures site[i] != '_' {
        assert !OccursAt(site, "_", i);
        assert site[i..i + 1] == [site[i]];
      }
      assert x[0] == site[..k];
      var rest := site[k + 1..];
      match Find(rest, "_")
      case None =>
        assert x == [site[..k], rest];
      case Some(m) =>
        forall i | 0 <= i < m ensures rest[i] != '_' {
          assert !OccursAt(rest, "_", i);
          assert rest[i..i + 1] == [rest[i]];
        }
        assert x[1] == rest[..m];
  }

  /** Sites with at least two underscores are exactly those with a tier and a base. */
  lemma SiteTierBaseOf(tier: string, country: string, rest: string)
    requires '_' !in tier && '_' !in country
    ensures SiteTierBase(tier + "_" + country + "_" + rest) == Some(TierBase(tier, country + "_" + rest))
  {
    SplitThree(tier, country, rest, 2);
    assert SplitMax(rest, "_", 0) == [rest];
  }

  /** One `(key, Site)` row of the slice handed to `_compact_sites`; the key is `Ip` or `Institution`. */
  datatype KeySite = KeySite(key: string, site: string)

  /** The rows of `key` that have a tier and a base. */
  predicate Grouped(r: KeySite, key: string)
  {
    r.key == key && SiteTierBase(r.site).Some?
  }

  /** The distinct tiers of one `(key, BaseSite)` group. */
  function Tiers(rows: seq<KeySite>, key: string, base: string): set<string>
  {
    set r | r in rows && Grouped(r, key) && SiteTierBase(r.site).value.base == base :: SiteTierBase(r.site).value.tier
  }

  /** `",".join(sorted(tiers))`. */
  function TierList(rows: seq<KeySite>, key: string, base: string): string
  {
    Join(",", SortedElems(Tiers(rows, key, base)))
  }

  /** The `Tier + '_' + BaseSite` strings of one key, one per base. */
  function SiteStrings(rows: seq<KeySite>, key: string): set<string>
  {
    set r | r in rows && Grouped(r, key) :: TierList(rows, key, SiteTierBase(r.site).value.base) + "_" + SiteTierBase(r.site).value.base
  }

  /** The keys that have at least one well-formed site. */
  function Keys(rows: seq<KeySite>): set<string>
  {
    set r | r in rows && SiteTierBase(r.site).Some? :: r.key
  }

  /** The sorted `tiers_base` strings of one key, joined with `; `. */
  function CompactValue(rows: seq<KeySite>, key: string): string
  {
    Join("; ", SortedElems(SiteStrings(rows, key)))
  }

  /**
   * `_compact_sites`: for every key with at least one well-formed site, the sorted
   * `tiers_base` strings joined with `; `. Duplicated rows and row order do not matter.
   */
  function CompactSites(rows: seq<KeySite>): (m: map<string, string>)
    ensures forall k :: k in m <==> exists r :: r in rows && Grouped(r, k)
  {
    map k | k in Keys(rows) :: CompactValue(rows, k)
  }

  /** The compacted strings depend only on which rows occur, not on their order or repetition. */
  lemma CompactSitesIgnoresOrder(rows1: seq<KeySite>, rows2: seq<KeySite>)
    requires forall r :: r in rows1 <==> r in rows2
    ensures CompactSites(rows1) == CompactSites(rows2)
  {
    assert Keys(rows1) == Keys(rows2);
    forall k | k in Keys(rows1) ensures CompactValue(rows1, k) == CompactValue(rows2, k) {
      SameSiteStrings(rows1, rows2, k);
    }
  }

  lemma SameSiteStrings(rows1: seq<KeySite>, rows2: seq<KeySite>, k: string)
    requires forall r :: r in rows1 <==> r in rows2
    ensures SiteStrings(rows1, k) == SiteStrings(rows2, k)
  {
    forall x | x in SiteStrings(rows1, k) ensures x in SiteStrings(rows2, k) {
      var r :| r in rows1 && Grouped(r, k) && x == TierList(rows1, k, SiteTierBase(r.site).value.base) + "_" + SiteTierBase(r.site).value.base;
      SameTiers(rows1, rows2, k, SiteTierBase(r.site).value.base);
    }
    forall x | x in SiteStrings(rows2, k) ensures x in SiteStrings(rows1, k) {
      var r :| r in rows2 && Grouped(r, k) && x == TierList(rows2, k, SiteTierBase(r.site).value.base) + "_" + SiteTierBase(r.site).value.base;
      SameTiers(rows1, rows2, k, SiteTierBase(r.site).value.base);
    }
  }

  lemma SameTiers(rows1: seq<KeySite>, rows2: seq<KeySite>, k: string, b: string)
    requires forall r :: r in rows1 <==> r in rows2
    ensures Tiers(rows1, k, b) == Tiers(rows2, k, b)
  {
  }

  /** No `_` in any part joined by a separator without `_`. */
  lemma TierListNoUnderscore(rows: seq<KeySite>, key: string, base: string)
    ensures '_' !in TierList(rows, key, base)
  {
    var tiers := SortedElems(Tiers(rows, key, base));
    forall i | 0 <= i < |tiers| ensures '_' !in tiers[i] {
      assert tiers[i] in Tiers(rows, key, base);
    }
    JoinAvoids(",", tiers, '_');
  }

  /**
   * Each `tiers_base` string names one base: the tier list has no `_`, so the first `_`
   * separates it from the base. Hence the strings of a key are distinct, one per base,
   * and sorting the set of them is sorting the group's list.
   */
  lemma SiteStringDeterminesBase(t1: string, b1: string, t2: string, b2: string)
    requires '_' !in t1 && '_' !in t2
    requires t1 + "_" + b1 == t2 + "_" + b2
    ensures t1 == t2 && b1 == b2
  {
    var s := t1 + "_" + b1;
    UnderscoreAfterTier(t1, b1);
    UnderscoreAfterTier(t2, b2);
    if |t1| < |t2| {
      assert false;
    } else if |t2| < |t1| {
      assert false;
    }
    assert t1 == s[..|t1|] == t2;
    assert b1 == s[|t1| + 1..] == b2;
  }

  lemma UnderscoreAfterTier(t: string, b: string)
    ensures (t + "_" + b)[|t|] == '_'
    ensures forall i :: 0 <= i < |t| ==> (t + "_" + b)[i] == t[i]
  {
  }

  /** The tier list of a group splits back on `,` into its sorted distinct tiers, when no tier holds a comma. */
  lemma TierListRoundTrip(rows: seq<KeySite>, key: string, base: string)
    requires exists r :: r in rows && Grouped(r, key) && SiteTierBase(r.site).value.base == base
    requires forall r :: r in rows ==> ',' !in r.site
    ensures SplitOn(TierList(rows, key, base), ",") == SortedElems(Tiers(rows, key, base))
  {
    var tiers := SortedElems(Tiers(rows, key, base));
    var r :| r in rows && Grouped(r, key) && SiteTierBase(r.site).value.base == base;
    assert SiteTierBase(r.site).value.tier in Tiers(rows, key, base);
    forall i | 0 <= i < |tiers| ensures ',' !in tiers[i] {
      assert tiers[i] in Tiers(rows, key, base);
      var q :| q in rows && Grouped(q, key) && SiteTierBase(q.site).value.base == base && SiteTierBase(q.site).value.tier == tiers[i];
    }
    SplitOnJoin(tiers, ',');
  }

  /** The two maps the tagger keeps: squid address to sites, institution to sites. */
  datatype Tagger = Tagger(ipSitesMap: map<string, string>, institutionSitesMap: map<string, string>)

  /** `valid_squids`: a resolved address that is not one of several behind a DNS alias. */
  predicate ValidSquid(e: GeoEntry)
  {
    !(e.ip == Unresolved || e.isDNS)
  }

  /** The `(Ip, Site)` rows kept by the `valid_squids` mask, in topology order. */
  function IpRows(geo: seq<GeoEntry>): (r: seq<KeySite>)
    ensures forall x :: x in r <==> exists e :: e in geo && ValidSquid(e) && x == KeySite(e.ip, e.site)
  {
    if geo == [] then []
    else
      var rest := IpRows(geo[1..]);
      assert forall e :: e in geo <==> e == geo[0] || e in geo[1..];
      (if ValidSquid(geo[0]) then [KeySite(geo[0].ip, geo[0].site)] else []) + rest
  }

  /** The `(Institution, Site)` rows of every topology entry, in order. */
  function InstitutionRows(geo: seq<GeoEntry>): (r: seq<KeySite>)
    ensures forall x :: x in r <==> exists e :: e in geo && x == KeySite(e.institution, e.site)
  {
    if geo == [] then []
    else
      var rest := InstitutionRows(geo[1..]);
      assert forall e :: e in geo <==> e == geo[0] || e in geo[1..];
      [KeySite(geo[0].institution, geo[0].site)] + rest
  }

  /**
   * `CMSTagger.__init__`: squid addresses to their compacted sites, institutions to their
   * compacted sites, and `Unknown` to itself.
   */
  function MakeTagger(geo: seq<GeoEntry>): (t: Tagger)
    ensures "Unknown" in t.institutionSitesMap && t.institutionSitesMap["Unknown"] == "Unknown"
  {
    Tagger(CompactSites(IpRows(geo)), CompactSites(InstitutionRows(geo))["Unknown" := "Unknown"])
  }

  /** The tagger knows exactly the valid squid addresses that have a well-formed site. */
  lemma MakeTaggerSquidKeys(geo: seq<GeoEntry>, ip: string)
    ensures ip in MakeTagger(geo).ipSitesMap <==>
      exists e :: e in geo && ValidSquid(e) && e.ip == ip && SiteTierBase(e.site).Some?
  {
    var ipRows := IpRows(geo);
    if ip in CompactSites(ipRows) {
      var r :| r in ipRows && Grouped(r, ip);
      var e :| e in geo && ValidSquid(e) && r == KeySite(e.ip, e.site);
    }
    if exists e :: e in geo && ValidSquid(e) && e.ip == ip && SiteTierBase(e.site).Some? {
      var e :| e in geo && ValidSquid(e) && e.ip == ip && SiteTierBase(e.site).Some?;
      assert KeySite(e.ip, e.site) in ipRows;
      assert Grouped(KeySite(e.ip, e.site), ip);
    }
  }

  /** An institution with compacted sites has a row with a well-formed site. */
  lemma InstitutionKeySound(geo: seq<GeoEntry>, k: string)
    requires k in CompactSites(InstitutionRows(geo))
    ensures exists e :: e in geo && e.institution == k && SiteTierBase(e.site).Some?
  {
    var r :| r in InstitutionRows(geo) && Grouped(r, k);
    var e :| e in geo && r == KeySite(e.institution, e.site);
    assert e.institution == k && SiteTierBase(e.site).Some?;
  }

  /** A row with a well-formed site puts its institution among the compacted keys. */
  lemma InstitutionKeyComplete(geo: seq<GeoEntry>, e: GeoEntry)
    requires e in geo && SiteTierBase(e.site).Some?
    ensures e.institution in CompactSites(InstitutionRows(geo))
  {
    var r := KeySite(e.institution, e.site);
    assert r in InstitutionRows(geo) && Grouped(r, e.institution);
  }

  /** The tagger knows exactly the institutions of the topology that have a well-formed site, and `Unknown`. */
  lemma MakeTaggerInstitutionKeys(geo: seq<GeoEntry>, k: string)
    ensures k in MakeTagger(geo).institutionSitesMap <==>
      k == "Unknown" || exists e :: e in geo && e.institution == k && SiteTierBase(e.site).Some?
  {
    var compact := CompactSites(InstitutionRows(geo));
    assert MakeTagger(geo).institutionSitesMap == compact["Unknown" := "Unknown"];
    if k != "Unknown" {
      if k in compact {
        InstitutionKeySound(geo, k);
      }
      if exists e :: e in geo && e.institution == k && SiteTierBase(e.site).Some? {
        var e :| e in geo && e.institution == k && SiteTierBase(e.site).Some?;
        InstitutionKeyComplete(geo, e);
      }
    }
  }

  /** The host names that stand for the local machine. */
  const Loopback: set<string> := {"127.0.0.1", "localhost", "localhost6", "::1"}

  /**
   * `assign_site_workernode`: a loopback identity is `localhost`; otherwise the sites of
   * the host's GeoIP organisation, or the organisation itself when it has none listed.
   */
  function AssignSiteWorkernode(host: string, institutionSitesMap: map<string, string>, orgByAddr: string -> string): (r: string)
    ensures host in Loopback ==> r == "localhost"
    ensures host !in Loopback && orgByAddr(host) in institutionSitesMap ==> r == institutionSitesMap[orgByAddr(host)]
    ensures host !in Loopback && orgByAddr(host) !in institutionSitesMap ==> r == orgByAddr(host)
  {
    if host in Loopback then "localhost"
    else
      var institution := orgByAddr(host);
      if institution in institutionSitesMap then institutionSitesMap[institution] else institution
  }

  /** A host whose organisation is unknown to GeoIP is tagged `Unknown`, whatever the topology. */
  lemma UnknownOrganisationTaggedUnknown(host: string, geo: seq<GeoEntry>, orgByAddr: string -> string)
    requires host !in Loopback && orgByAddr(host) == "Unknown"
    ensures AssignSiteWorkernode(host, MakeTagger(geo).institutionSitesMap, orgByAddr) == "Unknown"
  {
  }
}
