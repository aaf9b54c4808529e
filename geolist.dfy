/**
 * `parse_geolist` in FailoverLib.py: the token-chunk reading of the proxy list. The raw
 * text is split on the word `Directory`; a chunk of exactly six whitespace tokens names an
 * institution (token 0), a site (token 2) and its proxies (token 4), and every proxy is
 * expanded into topology rows by `gen_geo_entries`.
 */
module FailoverGeoList {
  import opened Results
  import opened PyText
  import opened StrOrder
  import opened FailoverHosts

  /** The characters `strip(';DIRECT')` removes from both ends of the proxy field. */
  const DirectChars: set<char> := {';', 'D', 'I', 'R', 'E', 'C', 'T'}

  /** `' '.join(s.replace('"', '').split())`: quotes dropped, whitespace runs collapsed. */
  function Simplify(raw: string): string
  {
    CollapseWhitespace(RemoveChars(raw, {'"'}))
  }

  /** `filter(lambda e: len(e) == 6, (line.split() for line in pieces))`. */
  function SixTokenChunks(pieces: seq<string>): (r: seq<seq<string>>)
    ensures forall c :: c in r ==> |c| == 6
    ensures forall c :: c in r ==> exists p :: p in pieces && Words(p) == c
    ensures forall p :: p in pieces && |Words(p)| == 6 ==> Words(p) in r
  {
    if pieces == [] then []
    else
      var rest := SixTokenChunks(pieces[1..]);
      assert forall p :: p in pieces[1..] ==> p in pieces;
      var w := Words(pieces[0]);
      assert pieces[0] in pieces;
      if |w| == 6 then [w] + rest else rest
  }

  /** The six-token chunks of the list, in text order. */
  function GeoChunks(raw: string): seq<seq<string>>
  {
    SixTokenChunks(SplitOn(Simplify(raw), "Directory"))
  }

  /** `re.sub('[/<>]', '', e[0])`. */
  function ChunkInstitution(chunk: seq<string>): string
    requires |chunk| == 6
  {
    RemoveChars(chunk[0], {'/', '<', '>'})
  }

  /**
   * `set(e[4].strip(';DIRECT').replace(';','|').split('|'))`, iterated in ascending order:
   * the proxy specs, each once, none containing `;` or `|`.
   */
  function ChunkProxies(chunk: seq<string>): (r: seq<string>)
    requires |chunk| == 6
    ensures StrictlySorted(r)
    ensures forall p :: p in r ==> ';' !in p && '|' !in p
    ensures forall p :: p in r <==> p in SplitOn(Replace(Strip(chunk[4], DirectChars), ";", "|"), "|")
  {
    var field := Replace(Strip(chunk[4], DirectChars), ";", "|");
    NoSemicolonAfterReplace(Strip(chunk[4], DirectChars));
    SplitOnCharPieces(field, '|');
    SplitOnAvoids(field, "|", ';');
    SortedSet(SplitOn(field, "|"))
  }

  lemma NoSemicolonAfterReplace(s: string)
    ensures ';' !in Replace(s, ";", "|")
  {
    SplitOnCharPieces(s, ';');
    var parts := SplitOn(s, ";");
    assert forall i :: 0 <= i < |parts| ==> parts[i] in parts;
    JoinAvoids("|", parts, ';');
  }

  /** `proxy.replace('/', '')`: the spec handed to `gen_geo_entries`. */
  function ProxyHostName(proxy: string): (r: string)
    ensures '/' !in r
  {
    var r := RemoveChars(proxy, {'/'});
    assert forall i :: 0 <= i < |r| ==> r[i] != '/';
    r
  }

  /** The rows for the proxies of one chunk, appended to `acc`; the first ValueError stops everything. */
  function ProxiesFrom(acc: seq<GeoEntry>, institution: string, site: string, proxies: seq<string>, res: Resolver): Result<seq<GeoEntry>>
    decreases |proxies|
  {
    if proxies == [] then Success(acc)
    else
      match GeoEntries(ProxyHostName(proxies[0]), institution, site, res)
      case Failure(e) => Failure(e)
      case Success(es) => ProxiesFrom(acc + es, institution, site, proxies[1..], res)
  }

  /** The rows for every chunk from `chunks`, appended to `acc`. */
  function ChunksFrom(acc: seq<GeoEntry>, chunks: seq<seq<string>>, res: Resolver): Result<seq<GeoEntry>>
    requires forall c :: c in chunks ==> |c| == 6
    decreases |chunks|
  {
    if chunks == [] then Success(acc)
    else
      var c := chunks[0];
      match ProxiesFrom(acc, ChunkInstitution(c), c[2], ChunkProxies(c), res)
      case Failure(e) => Failure(e)
      case Success(acc') => ChunksFrom(acc', chunks[1..], res)
  }

  /** What `parse_geolist` returns: the rows of every proxy of every six-token chunk. */
  function GeolistEntries(raw: string, res: Resolver): Result<seq<GeoEntry>>
  {
    ChunksFrom([], GeoChunks(raw), res)
  }

  /** The inner loop of `parse_geolist`: `squids.extend(gen_geo_entries(...))` for each proxy of a chunk. */
  method ExtendWithProxies(squids: seq<GeoEntry>, institution: string, site: string, proxies: seq<string>, res: Resolver)
    returns (r: Result<seq<GeoEntry>>)
    ensures r == ProxiesFrom(squids, institution, site, proxies, res)
  {
    var acc := squids;
    var rest := proxies;
    while rest != []
      invariant ProxiesFrom(acc, institution, site, rest, res) == ProxiesFrom(squids, institution, site, proxies, res)
      decreases |rest|
    {
      var hostName := ProxyHostName(rest[0]);
      var entries := GenGeoEntries(hostName, institution, site, res);
      if entries.Failure? {
        return Failure(entries.error);
      }
      acc := acc + entries.value;
      rest := rest[1..];
    }
    return Success(acc);
  }

  /** One pass of the chunk loop: the first chunk's rows are appended, or its error is the result. */
  lemma ChunksFromStep(acc: seq<GeoEntry>, chunks: seq<seq<string>>, res: Resolver)
    requires chunks != [] && forall c :: c in chunks ==> |c| == 6
    ensures forall c :: c in chunks[1..] ==> |c| == 6
    ensures var c := chunks[0];
      var p := ProxiesFrom(acc, ChunkInstitution(c), c[2], ChunkProxies(c), res);
      && (p.Failure? ==> ChunksFrom(acc, chunks, res) == Failure(p.error))
      && (p.Success? ==> ChunksFrom(acc, chunks, res) == ChunksFrom(p.value, chunks[1..], res))
  {
    assert forall c :: c in chunks[1..] ==> c in chunks;
  }

  /** `parse_geolist`: the loop over the six-token chunks. */
  method ParseGeolist(raw: string, res: Resolver) returns (r: Result<seq<GeoEntry>>)
    ensures r == GeolistEntries(raw, res)
  {
    var squids: seq<GeoEntry> := [];
    var rest := GeoChunks(raw);
    while rest != []
      invariant forall c :: c in rest ==> |c| == 6
      invariant ChunksFrom(squids, rest, res) == GeolistEntries(raw, res)
      decreases |rest|
    {
      var e := rest[0];
      ChunksFromStep(squids, rest, res);
      var extended := ExtendWithProxies(squids, ChunkInstitution(e), e[2], ChunkProxies(e), res);
      if extended.Failure? {
        return Failure(extended.error);
      }
      squids := extended.value;
      rest := rest[1..];
    }
    return Success(squids);
  }

  /** Appending to the accumulator only prefixes the result: rows already gathered are kept in order. */
  lemma {:induction false} ProxiesFromPrefix(acc: seq<GeoEntry>, institution: string, site: string, proxies: seq<string>, res: Resolver)
    ensures var r := ProxiesFrom(acc, institution, site, proxies, res);
      r.Success? ==>
        && |acc| <= |r.value| && r.value[..|acc|] == acc
        && forall k :: |acc| <= k < |r.value| ==> r.value[k].institution == institution && r.value[k].site == site
    decreases |proxies|
  {
    if proxies != [] {
      var g := GeoEntries(ProxyHostName(proxies[0]), institution, site, res);
      if g.Success? {
        ProxiesFromPrefix(acc + g.value, institution, site, proxies[1..], res);
        var r := ProxiesFrom(acc, institution, site, proxies, res);
        if r.Success? {
          assert (acc + g.value)[..|acc|] == acc;
          forall k | |acc| <= k < |r.value| ensures r.value[k].institution == institution && r.value[k].site == site {
            if k < |acc + g.value| {
              assert r.value[k] == (acc + g.value)[k] == g.value[k - |acc|];
            }
          }
        }
      }
    }
  }

  /** A row's institution and site come from one of the chunks, the institution cleaned of `/`, `<`, `>`. */
  predicate FromSomeChunk(e: GeoEntry, chunks: seq<seq<string>>)
  {
    exists c :: c in chunks && |c| == 6 && e.institution == ChunkInstitution(c) && e.site == c[2]
  }

  lemma {:induction false} ChunksFromProvenance(acc: seq<GeoEntry>, chunks: seq<seq<string>>, res: Resolver)
    requires forall c :: c in chunks ==> |c| == 6
    ensures var r := ChunksFrom(acc, chunks, res);
      r.Success? ==>
        && |acc| <= |r.value| && r.value[..|acc|] == acc
        && forall k :: |acc| <= k < |r.value| ==> FromSomeChunk(r.value[k], chunks)
    decreases |chunks|
  {
    if chunks != [] {
      var c := chunks[0];
      ChunksFromStep(acc, chunks, res);
      var p := ProxiesFrom(acc, ChunkInstitution(c), c[2], ChunkProxies(c), res);
      ProxiesFromPrefix(acc, ChunkInstitution(c), c[2], ChunkProxies(c), res);
      if p.Success? {
        ChunksFromProvenance(p.value, chunks[1..], res);
        var r := ChunksFrom(p.value, chunks[1..], res);
        if r.Success? {
          ProvenanceJoin(acc, p.value, r.value, chunks);
        }
      }
    }
  }

  /** Rows of the first chunk followed by rows of later chunks are all rows of some chunk. */
  lemma ProvenanceJoin(acc: seq<GeoEntry>, mid: seq<GeoEntry>, out: seq<GeoEntry>, chunks: seq<seq<string>>)
    requires chunks != [] && |chunks[0]| == 6
    requires |acc| <= |mid| && mid[..|acc|] == acc && |mid| <= |out| && out[..|mid|] == mid
    requires forall k :: |acc| <= k < |mid| ==> mid[k].institution == ChunkInstitution(chunks[0]) && mid[k].site == chunks[0][2]
    requires forall k :: |mid| <= k < |out| ==> FromSomeChunk(out[k], chunks[1..])
    ensures |acc| <= |out| && out[..|acc|] == acc
    ensures forall k :: |acc| <= k < |out| ==> FromSomeChunk(out[k], chunks)
  {
    assert out[..|acc|] == mid[..|acc|];
    forall k | |acc| <= k < |out| ensures FromSomeChunk(out[k], chunks) {
      if k < |mid| {
        assert out[k] == mid[k];
        assert chunks[0] in chunks;
      } else {
        var d :| d in chunks[1..] && |d| == 6 && out[k].institution == ChunkInstitution(d) && out[k].site == d[2];
        assert d in chunks;
      }
    }
  }

  /**
   * Every row `parse_geolist` produces belongs to a six-token chunk of the list: its
   * institution is that chunk's token 0 without `/`, `<`, `>`, its site is token 2.
   */
  lemma GeolistEntriesProvenance(raw: string, res: Resolver)
    ensures var r := GeolistEntries(raw, res);
      r.Success? ==> forall e :: e in r.value ==>
        FromSomeChunk(e, GeoChunks(raw)) && '/' !in e.institution && '<' !in e.institution && '>' !in e.institution
  {
    ChunksFromProvenance([], GeoChunks(raw), res);
    var r := GeolistEntries(raw, res);
    if r.Success? {
      forall e | e in r.value
        ensures FromSomeChunk(e, GeoChunks(raw)) && '/' !in e.institution && '<' !in e.institution && '>' !in e.institution
      {
        var k :| 0 <= k < |r.value| && r.value[k] == e;
        var c :| c in GeoChunks(raw) && |c| == 6 && e.institution == ChunkInstitution(c) && e.site == c[2];
        assert forall i :: 0 <= i < |e.institution| ==> e.institution[i] !in {'/', '<', '>'};
      }
    }
  }

  /** The proxies' rows fail exactly when some proxy's spec has neither one nor three `:` fields. */
  lemma {:induction false} ProxiesFromFails(acc: seq<GeoEntry>, institution: string, site: string, proxies: seq<string>, res: Resolver)
    ensures ProxiesFrom(acc, institution, site, proxies, res).Failure? <==>
      exists p :: p in proxies && ParseHostSpec(ProxyHostName(p)).Failure?
    decreases |proxies|
  {
    if proxies != [] {
      assert proxies[0] in proxies;
      var g := GeoEntries(ProxyHostName(proxies[0]), institution, site, res);
      if g.Success? {
        ProxiesFromFails(acc + g.value, institution, site, proxies[1..], res);
        assert forall p :: p in proxies ==> p == proxies[0] || p in proxies[1..];
        assert forall p :: p in proxies[1..] ==> p in proxies;
      }
    }
  }

  /** On success, every row `gen_geo_entries` gives for one of the proxies is in the result. */
  lemma {:induction false} ProxiesFromComplete(acc: seq<GeoEntry>, institution: string, site: string, proxies: seq<string>, res: Resolver)
    ensures var r := ProxiesFrom(acc, institution, site, proxies, res);
      r.Success? ==> forall p :: p in proxies ==>
        var g := GeoEntries(ProxyHostName(p), institution, site, res);
        g.Success? && forall e :: e in g.value ==> e in r.value
    decreases |proxies|
  {
    if proxies != [] {
      var g := GeoEntries(ProxyHostName(proxies[0]), institution, site, res);
      if g.Success? {
        ProxiesFromComplete(acc + g.value, institution, site, proxies[1..], res);
        ProxiesFromPrefix(acc + g.value, institution, site, proxies[1..], res);
        var r := ProxiesFrom(acc, institution, site, proxies, res);
        if r.Success? {
          assert r.value[..|acc + g.value|] == acc + g.value;
          assert forall e :: e in g.value ==> e in r.value[..|acc + g.value|];
          assert forall p :: p in proxies ==> p == proxies[0] || p in proxies[1..];
        }
      }
    }
  }

  /** On success, every new row is a row `gen_geo_entries` gives for one of the proxies. */
  lemma {:induction false} ProxiesFromSound(acc: seq<GeoEntry>, institution: string, site: string, proxies: seq<string>, res: Resolver)
    ensures var r := ProxiesFrom(acc, institution, site, proxies, res);
      r.Success? ==> forall e :: e in r.value ==>
        || e in acc
        || (exists p :: p in proxies && GeoEntries(ProxyHostName(p), institution, site, res).Success?
                     && e in GeoEntries(ProxyHostName(p), institution, site, res).value)
    decreases |proxies|
  {
    if proxies != [] {
      var g := GeoEntries(ProxyHostName(proxies[0]), institution, site, res);
      if g.Success? {
        ProxiesFromSound(acc + g.value, institution, site, proxies[1..], res);
        assert proxies[0] in proxies;
        assert forall p :: p in proxies[1..] ==> p in proxies;
      }
    }
  }

  /** `e` is one of the rows `gen_geo_entries` gives for proxy `p` of chunk `c`. */
  predicate ProxyRow(e: GeoEntry, c: seq<string>, p: string, res: Resolver)
    requires |c| == 6
  {
    var g := GeoEntries(ProxyHostName(p), ChunkInstitution(c), c[2], res);
    g.Success? && e in g.value
  }

  lemma {:induction false} ChunksFromFails(acc: seq<GeoEntry>, chunks: seq<seq<string>>, res: Resolver)
    requires forall c :: c in chunks ==> |c| == 6
    ensures ChunksFrom(acc, chunks, res).Failure? <==>
      exists c, p :: c in chunks && p in ChunkProxies(c) && ParseHostSpec(ProxyHostName(p)).Failure?
    decreases |chunks|
  {
    if chunks != [] {
      var c := chunks[0];
      assert c in chunks;
      ChunksFromStep(acc, chunks, res);
      ProxiesFromFails(acc, ChunkInstitution(c), c[2], ChunkProxies(c), res);
      var q := ProxiesFrom(acc, ChunkInstitution(c), c[2], ChunkProxies(c), res);
      if q.Success? {
        ChunksFromFails(q.value, chunks[1..], res);
        assert forall d :: d in chunks ==> d == c || d in chunks[1..];
        assert forall d :: d in chunks[1..] ==> d in chunks;
      }
    }
  }

  lemma {:induction false} ChunksFromComplete(acc: seq<GeoEntry>, chunks: seq<seq<string>>, res: Resolver)
    requires forall c :: c in chunks ==> |c| == 6
    ensures var r := ChunksFrom(acc, chunks, res);
      r.Success? ==> forall c, e, p :: c in chunks && p in ChunkProxies(c) && ProxyRow(e, c, p, res) ==> e in r.value
    decreases |chunks|
  {
    if chunks != [] {
      var c := chunks[0];
      ChunksFromStep(acc, chunks, res);
      ProxiesFromComplete(acc, ChunkInstitution(c), c[2], ChunkProxies(c), res);
      var q := ProxiesFrom(acc, ChunkInstitution(c), c[2], ChunkProxies(c), res);
      if q.Success? {
        ChunksFromComplete(q.value, chunks[1..], res);
        ChunksFromProvenance(q.value, chunks[1..], res);
        var r := ChunksFrom(acc, chunks, res);
        if r.Success? {
          assert forall e :: e in q.value ==> e in r.value[..|q.value|];
          assert forall d :: d in chunks ==> d == c || d in chunks[1..];
        }
      }
    }
  }

  lemma {:induction false} ChunksFromSound(acc: seq<GeoEntry>, chunks: seq<seq<string>>, res: Resolver)
    requires forall c :: c in chunks ==> |c| == 6
    ensures var r := ChunksFrom(acc, chunks, res);
      r.Success? ==> forall e :: e in r.value ==> e in acc || exists c, p :: c in chunks && p in ChunkProxies(c) && ProxyRow(e, c, p, res)
    decreases |chunks|
  {
    if chunks != [] {
      var c := chunks[0];
      ChunksFromStep(acc, chunks, res);
      ProxiesFromSound(acc, ChunkInstitution(c), c[2], ChunkProxies(c), res);
      var q := ProxiesFrom(acc, ChunkInstitution(c), c[2], ChunkProxies(c), res);
      if q.Success? {
        ChunksFromSound(q.value, chunks[1..], res);
        assert c in chunks;
        assert forall d :: d in chunks[1..] ==> d in chunks;
      }
    }
  }

  /**
   * `parse_geolist` raises ValueError exactly when a proxy of some six-token chunk has
   * neither one nor three `:`-separated fields.
   */
  lemma GeolistEntriesFails(raw: string, res: Resolver)
    ensures GeolistEntries(raw, res).Failure? <==>
      exists c, p :: c in GeoChunks(raw) && p in ChunkProxies(c) && ParseHostSpec(ProxyHostName(p)).Failure?
  {
    ChunksFromFails([], GeoChunks(raw), res);
  }

  /**
   * The table `parse_geolist` returns holds exactly the rows `gen_geo_entries` gives for the
   * proxies of the six-token chunks, each under its chunk's institution and site.
   */
  lemma GeolistEntriesExact(raw: string, res: Resolver)
    ensures var r := GeolistEntries(raw, res);
      r.Success? ==> forall e :: e in r.value <==>
        exists c, p :: c in GeoChunks(raw) && p in ChunkProxies(c) && ProxyRow(e, c, p, res)
  {
    ChunksFromComplete([], GeoChunks(raw), res);
    ChunksFromSound([], GeoChunks(raw), res);
  }

  /** A piece of the list whose text splits into six tokens is always kept as a chunk. */
  lemma SixTokenPieceKept(raw: string, piece: string)
    requires piece in SplitOn(Simplify(raw), "Directory")
    requires |Words(piece)| == 6
    ensures Words(piece) in GeoChunks(raw)
  {
  }

  /**
   * `strip(';DIRECT')` strips characters, not the word: a host ending in `C`, `I` or `T`
   * loses those letters too.
   */
  lemma StripIsCharacterSet()
    ensures Strip("a.ICT;DIRECT", DirectChars) == "a."
  {
    var s := "a.ICT;DIRECT";
    assert s[0] == 'a' && 'a' !in DirectChars;
    LStripStop(s, DirectChars);
    assert s == "a." + "ICT;DIRECT";
    RStripSuffix("a.", "ICT;DIRECT", DirectChars);
  }

  /** Removing the substring `;DIRECT` instead keeps the host intact. */
  lemma ReplaceIsSubstringRemoval()
    ensures Replace("a.ICT;DIRECT", ";DIRECT", "") == "a.ICT"
  {
    var s := "a.ICT;DIRECT";
    assert OccursAt(s, ";DIRECT", 5);
    forall j: nat | j < 5 ensures !OccursAt(s, ";DIRECT", j) {
      assert s[j] != ';';
    }
    assert Find(s, ";DIRECT") == Some(5);
    assert s[..5] == "a.ICT";
    assert s[12..] == "";
    assert SplitOn("", ";DIRECT") == [""];
    assert SplitOn(s, ";DIRECT") == ["a.ICT", ""];
  }
}
