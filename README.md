# Frontier failover monitoring — a Dafny model

The Frontier failover monitor checks the CMS Frontier caching proxies ("squids"). It reads two text lists:

- the **geolist** names, for each institution and site, the squids its jobs use;
- the **exception list** adds monitoring hosts and removes worker nodes or whole sites.

From the two lists it builds a squid table. It then compares AWStats traffic snapshots taken an hour apart. It flags every institution whose direct traffic (traffic that bypasses its squids) is above a fixed rate.

Two validation scripts re-parse the same lists into nested institution → site → proxy tables.

This project models four parts in Dafny, each as the source writes it:

- `FailoverLib.py`:
  - the geolist tokenizer;
  - squid entry generation;
  - the exception-list parser;
  - topology patching;
  - the site tagger;
  - host and IP helpers.
- `hourly-monitor.py`:
  - the hit delta;
  - the excess-failover check;
  - the first-run and `IsSquid` steps of `main`.
- `validate_parse_exceptionlist.py`:
  - the in-place exception-list editor;
  - the inverse site map;
  - the geolist loader and its two table writers.
- `validate_parse_geolist.py`:
  - the line-driven `<Directory>` state machine and its host and address rebuild;
  - the chunk-based loader;
  - `list_to_dict`.

## Layout

| file | module | models |
|---|---|---|
| `results.dfy` | `Results` | `Option`, `Result` and Python exceptions as values (`PyError`) |
| `pytext.dfy` | `PyText` | the Python `str` operations the code uses: `split()`, `split(sep)`, `split(sep, maxsplit)`, `join`, `replace`, `strip(chars)`, a `re.sub` character class, `int()`, `str(n)` |
| `strorder.dfy` | `StrOrder` | Python's string order; `sorted(set(...))` as `SortedSet` and `SortedElems` |
| `hosts.dfy` | `FailoverHosts` | `is_a_valid_ip`, `simple_get_hosts_ipv4_addrs`, `gen_geo_entries` |
| `geolist.dfy` | `FailoverGeoList` | `parse_geolist` of `FailoverLib.py` |
| `exceptions.dfy` | `FailoverExceptions` | `parse_exceptionlist` |
| `topology.dfy` | `FailoverTopology` | `flatten`, `patch_geo_table`, `get_squid_host_alias_map` |
| `tagger.dfy` | `FailoverTagger` | `cms_site_name_split`, `CMSTagger.__init__`, `_compact_sites`, `assign_site_workernode` |
| `monitor.dfy` | `HourlyMonitor` | `compute_traffic_delta`, `add_institutions`, `excess_failover_check`, `main` |
| `proxytable.dfy` | `ProxyTables` | what both validators share: the proxy-list cleanup, the host-name extraction, the old-format site entry |
| `validate_exceptions.dfy` | `ExceptionListValidator` | `validate_parse_exceptionlist.py`; class `SquidsList` holds `sites_squids_list` |
| `validate_geolist.dfy` | `GeoListValidator` | `validate_parse_geolist.py`; class `SiteSquids` holds `sitesquid` |

**How the source's form is kept**

- Loops that build a list or edit a dictionary become methods with loop invariants. Examples:
  - `parse_geolist` and `gen_geo_entries` extend `squids`;
  - `parse_exceptionlist` appends to three lists;
  - `patch_geo_table` narrows `geo_new` worker node by worker node;
  - the validators edit their nested dictionaries.
- Each such method is proved equal to a fold function over its input. The properties are then lemmas about that function.
- The validators' module-level dictionaries, which their functions mutate through default arguments, become the field of a class. Its methods `modify` the field and state the new table.
- pandas tables in `hourly-monitor.py` are only copied and filtered, so they become sequences of records and the operations become functions.

**Lookups outside the model**

DNS, reverse DNS and GeoIP are function-valued parameters:

- `Resolver.addrInfo` stands for `getaddrinfo` restricted to `AF_INET`, as `FailoverLib.py` calls it: either the set of addresses, or a `socket.error`.
- `Resolver.addrInfoAny` stands for `getaddrinfo(host, 0)` with no address family, as `validate_parse_exceptionlist.py` calls it (lines 402-405): its set can hold IPv6 addresses.
- `Resolver.fqdn` stands for `getfqdn`.
- `byName` stands for `gethostbyname_ex` (`None` = `socket.error`).
- `orgByName` and `orgByAddr` stand for the GeoIP organisation lookups.
- `isp` stands for `get_isp`.

Python exceptions that the code lets escape are `Failure` values, naming the exception. The exceptions covered are:

- `IndexError`;
- `KeyError`;
- `ValueError`;
- `NameError` (a variable used before the loop has set it);
- pandas' `InvalidIndexError`;
- `AttributeError`.

## Model

| member | source | states |
|---|---|---|
| FailoverHosts.ValidIpIsDottedQuad | FailoverLib.py:270-276 | an address `is_a_valid_ip` accepts splits on `.` into exactly four parts, each an integer in [0,255], and joining the parts gives the address back |
| FailoverHosts.DottedQuadIsValidIp | FailoverLib.py:270-276 | conversely, four parts that each parse as an integer in [0,255], joined with `.`, are accepted |
| FailoverHosts.RenderedQuadIsValid | FailoverLib.py:270-276 | the text of any four numbers below 256, joined with dots, is a valid address |
| FailoverHosts.QuadIsValid | FailoverLib.py:270-276 | four parts in range joined with dots form a valid address |
| FailoverHosts.ThreePartsInvalid | FailoverLib.py:272-274 | a name with three dot-separated parts is rejected (the length test) |
| FailoverHosts.NonBytePartInvalid | FailoverLib.py:273-276 | a four-part name with a part that is not an integer in range is rejected: `int()` raising is caught and answers false |
| FailoverHosts.ByteOutOfRangeInvalid | FailoverLib.py:274 | `256.0.0.1` is rejected: the upper bound is exclusive |
| FailoverHosts.IsValidIp | FailoverLib.py:270-276 | `is_a_valid_ip`: the predicate whose meaning ValidIpIsDottedQuad and DottedQuadIsValidIp state in both directions — four `.`-separated parts, each an integer in [0,256), and any part `int()` rejects answers false |
| FailoverHosts.SimpleGetHostsIpv4Addrs | FailoverLib.py:253-264 | a valid address resolves to itself alone; a resolution error gives `['0.0.0.0']`; otherwise the result holds exactly the addresses of the `AF_INET` lookup, each once |
| FailoverHosts.AddressesOf | FailoverLib.py:253-264 | the shape both address helpers share, for a given lookup: a valid address resolves to itself alone, a lookup error gives `['0.0.0.0']`, and otherwise the result holds exactly the lookup's addresses, each once |
| FailoverHosts.ParseHostSpec | FailoverLib.py:138-143 | a spec without `:` is the host with port `''`; the split succeeds iff it has one field or three, and any other count raises `ValueError` on unpacking |
| FailoverHosts.ParseHostSpecThreeFields | FailoverLib.py:138-143 | `proto:host:port` gives host = the middle field and port = the last |
| FailoverHosts.GeoEntries | FailoverLib.py:136-163 | one entry per resolved address, in order; `IsDNS` iff more than one address; `Alias` is always the listed name; `Host` is the listed name for `0.0.0.0` and the reverse name otherwise; institution, site and port are copied in; a malformed spec fails |
| FailoverHosts.GeoEntriesUnresolvable | FailoverLib.py:145-152 | an unresolvable name gives exactly one entry: address `0.0.0.0`, host = alias = the listed name, not DNS |
| FailoverHosts.GenGeoEntries | FailoverLib.py:136-163 | the method, parsing the spec and then looping over the addresses, computes `GeoEntries` |
| FailoverHosts.EntriesFor | FailoverLib.py:146-163 | the append loop gives one row per address, in order, with the listed name for `0.0.0.0` and the reverse name otherwise |
| FailoverGeoList.SixTokenChunks | FailoverLib.py:119-121 | every kept chunk has six tokens and is the tokenisation of some piece; every six-token piece is kept |
| FailoverGeoList.SixTokenPieceKept | FailoverLib.py:116-121 | a piece of the `Directory`-split, whitespace-collapsed, quote-free text that has six tokens is among the parsed chunks |
| FailoverGeoList.ChunkProxies | FailoverLib.py:128 | the proxy set of a chunk: sorted, each spec once, no `;` or `\|` inside, and exactly the pieces of token 4 stripped of `;DIRECT` characters and split on `;`/`\|` |
| FailoverGeoList.StripIsCharacterSet | FailoverLib.py:128 | `strip(';DIRECT')` strips a character set: `a.ICT;DIRECT` loses its `ICT` as well |
| FailoverGeoList.ProxyHostName | FailoverLib.py:131 | the host name passed on has no `/` |
| FailoverGeoList.ExtendWithProxies | FailoverLib.py:130-132 | the inner loop computes `ProxiesFrom`: it fails iff a proxy is malformed, and its table holds exactly the earlier rows and every proxy's entries |
| FailoverGeoList.ChunksFromStep | FailoverLib.py:125-132 | helper: one pass of the outer loop unfolded (the chunk's entries are appended, or its error ends the parse) |
| FailoverGeoList.ParseGeolist | FailoverLib.py:112-134 | the nested loop computes `GeolistEntries`: it fails iff a proxy of a six-token chunk is malformed, and otherwise the table holds exactly the entries of those proxies (GeolistEntriesExact) |
| FailoverGeoList.ProxiesFromPrefix | FailoverLib.py:130-132 | the loop only appends: the earlier entries are kept, and every new entry carries the chunk's institution and site |
| FailoverGeoList.ChunksFromProvenance | FailoverLib.py:125-132 | every entry the outer loop adds comes from one of the chunks |
| FailoverGeoList.ProvenanceJoin | FailoverLib.py:125-132 | entries of the first chunk followed by entries of later chunks all come from some chunk, and the earlier entries are kept |
| FailoverGeoList.GeolistEntriesProvenance | FailoverLib.py:125-132 | every table entry comes from a six-token chunk, and its institution has no `/`, `<` or `>` |
| FailoverGeoList.ProxiesFrom | FailoverLib.py:130-132 | the inner loop as a fold over the proxies; its meaning is stated by ProxiesFromFails, ProxiesFromComplete and ProxiesFromSound |
| FailoverGeoList.ChunksFrom | FailoverLib.py:125-132 | the outer loop as a fold over the chunks; its meaning is stated by ChunksFromFails, ChunksFromComplete and ChunksFromSound |
| FailoverGeoList.GeolistEntries | FailoverLib.py:112-134 | what `parse_geolist` returns; its meaning is stated by GeolistEntriesFails and GeolistEntriesExact |
| FailoverGeoList.ProxiesFromFails | FailoverLib.py:130-132 | the inner loop raises `ValueError` exactly when some proxy spec has neither one nor three `:`-separated fields |
| FailoverGeoList.ProxiesFromComplete | FailoverLib.py:130-132 | on success, every entry `gen_geo_entries` produces for any of the proxies is in the table |
| FailoverGeoList.ProxiesFromSound | FailoverLib.py:130-132 | on success, every entry of the table was there before or is a `gen_geo_entries` entry of one of the proxies |
| FailoverGeoList.ChunksFromFails | FailoverLib.py:125-132 | the outer loop raises exactly when some proxy of some chunk is malformed |
| FailoverGeoList.ChunksFromComplete | FailoverLib.py:125-132 | on success, every entry of every proxy of every chunk, under that chunk's institution and site, is in the table |
| FailoverGeoList.ChunksFromSound | FailoverLib.py:125-132 | on success, every entry was there before or is an entry of a proxy of a chunk, under that chunk's institution and site |
| FailoverGeoList.GeolistEntriesFails | FailoverLib.py:112-134 | `parse_geolist` raises exactly when some proxy of some six-token chunk of the file is malformed |
| FailoverGeoList.GeolistEntriesExact | FailoverLib.py:112-134 | on success, an entry is in the table iff it is a `gen_geo_entries` entry of a proxy of a six-token chunk, with the chunk's cleaned first token as institution and its third token as site |
| FailoverExceptions.LineLength | FailoverLib.py:171 | the first line runs up to the first line break, exclusive |
| FailoverExceptions.SplitLines | FailoverLib.py:171 | `splitlines()` pieces hold no line break |
| FailoverExceptions.SplitLinesSingle | FailoverLib.py:171 | a non-empty text without a line break is one line |
| FailoverExceptions.SplitLinesCrLf | FailoverLib.py:171 | `\r\n` ends one line, not two |
| FailoverExceptions.LineLengthAppend | FailoverLib.py:171 | a break-free prefix adds its length to the first line |
| FailoverExceptions.Prefixed | FailoverLib.py:182-183 | the prefix-selected hosts are no more than the hosts |
| FailoverExceptions.ParseLine | FailoverLib.py:173-198 | one line: skipped when empty or a comment; `IndexError` on a whitespace-only line; an incomplete line when some host lacks a prefix; otherwise parsed, with the site = the first token stripped of `+`/`-`, the monitoring hosts = the `+` tokens without their sign and the worker-node hosts = the `-` tokens, in order |
| FailoverExceptions.AllPrefixedIffCountsAddUp | FailoverLib.py:185 | the length test holds exactly when every host token starts with `+` or `-` |
| FailoverExceptions.CountsBounded | FailoverLib.py:182-185 | the two selected lists together never outnumber the hosts |
| FailoverExceptions.PrefixedProvenance | FailoverLib.py:182-183 | every selected host is a listed token with that prefix, with the prefix removed |
| FailoverExceptions.PrefixedComplete | FailoverLib.py:182-183 | every token with the prefix is selected, with the prefix removed |
| FailoverExceptions.ParsedLinePartitionsHosts | FailoverLib.py:181-195 | on a complete line, each host token lands in exactly one view (`+` monitoring, `-` worker node), with its prefix removed |
| FailoverExceptions.Apply | FailoverLib.py:191-198 | a skipped or incomplete line changes nothing; a parsed line appends `(site, h)` for each monitoring host, in order, to the monitoring view, and likewise for worker nodes, and appends an action iff the line's first character is `+` or `-` |
| FailoverExceptions.SkippedLineChangesNothing | FailoverLib.py:173-174 | an empty or `#` line leaves the result as if it were absent |
| FailoverExceptions.IncompleteLineChangesNothing | FailoverLib.py:185-189 | a line with an unprefixed host contributes no hosts and no action |
| FailoverExceptions.ActionsAreSigns | FailoverLib.py:197-198 | every recorded action is `+` or `-` |
| FailoverExceptions.HostRows | FailoverLib.py:191-195 | one `(site, host)` row per host, in order; a row is in it iff it names the site and one of the hosts |
| FailoverExceptions.StepLine | FailoverLib.py:173-198 | one pass of the line loop: `IndexError` on a whitespace-only line, otherwise the line applied; stated through ParseLine and Apply |
| FailoverExceptions.ParseLinesFrom | FailoverLib.py:171-198 | the line loop as a fold; its meaning is stated by TokenRowsReachView, ViewRowsFromTokens and ActionsAreSigns |
| FailoverExceptions.ExceptionList | FailoverLib.py:165-204 | what `parse_exceptionlist` returns, failing with `KeyError` when no action was recorded (line 200); its meaning is stated by ExceptionListRows |
| FailoverExceptions.ApplyLineRows | FailoverLib.py:191-195 | the rows one parsed line adds to a view are exactly `(site, h)` for its tokens `+h` (monitoring) or `-h` (worker node); the earlier rows stay in front |
| FailoverExceptions.ViewPrefixKept | FailoverLib.py:171-195 | the loop only appends: rows already in a view stay at its front |
| FailoverExceptions.TokenRowsReachView | FailoverLib.py:171-195 | every `+h` or `-h` token of an accepted line lands in its view as `(site, h)` |
| FailoverExceptions.ViewRowsFromTokens | FailoverLib.py:171-195 | every row of a view was there before the loop or comes from such a token |
| FailoverExceptions.ExceptionListRows | FailoverLib.py:165-204 | on success, `(site, h)` is in the monitoring view iff some accepted line of that site carries `+h`, and in the worker-node view iff one carries `-h` |
| FailoverExceptions.AppendLine | FailoverLib.py:171-198 | one loop iteration computes the step function |
| FailoverExceptions.ParseExceptionList | FailoverLib.py:165-204 | the loop computes `ExceptionList`: its views hold exactly the `+h`/`-h` rows of the accepted lines (ExceptionListRows); an empty action list fails as pandas' `set_index('Site')` does |
| FailoverTopology.FlattenMembership | FailoverLib.py:284-285 | `sum(lists, [])` holds exactly the elements of the lists |
| FailoverTopology.FlattenAppend | FailoverLib.py:284-285 | flattening distributes over concatenation |
| FailoverTopology.Flatten | FailoverLib.py:284-285 | `sum(lists, [])`: the concatenation, in order; an element is in it iff it is in one of the lists |
| FailoverTopology.Filter | FailoverLib.py:208-222 | a boolean-mask selection keeps exactly the rows that pass, in order |
| FailoverTopology.GenAll | FailoverLib.py:212-213 | the added monitoring hosts are expanded one by one; a malformed host makes the whole step fail |
| FailoverTopology.PatchGeoTable | FailoverLib.py:206-224 | the method, with its worker-node loop, computes `PatchedGeoTable`, whose rows are stated by PatchedGeoTableGuarantees, PatchedGeoTableKeeps and PatchedGeoTableAdds |
| FailoverTopology.DropWorkerNodesMembership | FailoverLib.py:219-222 | after the loop, a row is kept iff it was there and matches no worker node by alias or host within the same site |
| FailoverTopology.DropWorkerNodes | FailoverLib.py:219-222 | the worker-node loop as a fold; its meaning is stated by DropWorkerNodesMembership |
| FailoverTopology.Candidates | FailoverLib.py:208-217 | the table before the worker-node loop; its meaning is stated by CandidatesProvenance |
| FailoverTopology.PatchedGeoTable | FailoverLib.py:206-224 | what `patch_geo_table` returns; its meaning is stated by PatchedGeoTableGuarantees, PatchedGeoTableKeeps and PatchedGeoTableAdds |
| FailoverTopology.SelectionIsRedundant | FailoverLib.py:220 | restricting the worker nodes to sites still in the table removes the same rows as using all of them |
| FailoverTopology.CandidatesProvenance | FailoverLib.py:208-217 | every row before the worker-node loop is a non-DNS geo row or the entry of a monitoring host not yet present, and none is in a `-` site |
| FailoverTopology.PatchedGeoTableGuarantees | FailoverLib.py:206-224 | the patched table has no `-` site, no row of a listed worker node, and only rows from the non-DNS geo table or new monitoring hosts |
| FailoverTopology.PatchedGeoTableKeeps | FailoverLib.py:206-224 | a non-DNS geo row outside `-` sites and not a worker node survives |
| FailoverTopology.PatchedGeoTableAdds | FailoverLib.py:210-222 | every entry `gen_geo_entries` gives for a monitoring host not yet listed as non-DNS, outside the `-` sites, reaches the table unless a worker-node row of its site names its host or alias |
| FailoverTopology.Dedup | FailoverLib.py:296 | `drop_duplicates` keeps every row once |
| FailoverTopology.HostAliasPairs | FailoverLib.py:296 | the `Host`/`Alias` columns, row by row |
| FailoverTopology.SquidHostAliasMapEntries | FailoverLib.py:294-300 | one entry per non-DNS host/alias pair, with the host lowercased and the alias blanked when it equals the host; nothing else |
| FailoverTopology.SquidHostAliasMap | FailoverLib.py:294-300 | what `get_squid_host_alias_map` returns; its meaning is stated by SquidHostAliasMapEntries |
| FailoverTagger.CmsSiteNameSplit | FailoverLib.py:372-385 | fewer than three `_` fields raises `IndexError`; otherwise either the whole name with no suffix, or a base and a suffix of at most two characters that rejoin with `_` to the name |
| FailoverTagger.CmsSiteNameSplitThreeParts | FailoverLib.py:376-377 | a three-field name is its own base, with no suffix |
| FailoverTagger.CmsSiteNameSplitFourParts | FailoverLib.py:378-383 | a fourth field longer than two characters keeps the whole name; otherwise it becomes the suffix |
| FailoverTagger.CmsSiteNameSplitTooShort | FailoverLib.py:374-375 | a two-field name fails |
| FailoverTagger.CmsSiteNameSplitExampleThree | FailoverLib.py:372-385 | `T1_US_FOO` gives (`T1_US_FOO`, `''`) |
| FailoverTagger.CmsSiteNameSplitExampleSuffix | FailoverLib.py:372-385 | `T2_US_FOO_XY` gives (`T2_US_FOO`, `XY`) |
| FailoverTagger.CmsSiteNameSplitExampleLong | FailoverLib.py:372-385 | `T2_US_FOO_XYZ` gives (`T2_US_FOO_XYZ`, `''`) |
| FailoverTagger.SiteTierBase | FailoverLib.py:360-362 | a site with two underscores splits into a tier without `_` and a base, rejoined by `_`; other sites have no base |
| FailoverTagger.SiteTierBaseOf | FailoverLib.py:360-362 | `T_C_rest` has tier `T` and base `C_rest` |
| FailoverTagger.SplitMaxFirstPieces | FailoverLib.py:360-362 | when `split('_', 2)` gives three pieces, the first two hold no `_` |
| FailoverTagger.CompactSites | FailoverLib.py:355-370 | the compacted map has a key exactly for each value of the other column that has a site with a tier and base |
| FailoverTagger.CompactSitesIgnoresOrder | FailoverLib.py:355-370 | the compacted map depends only on which rows occur, not their order or repetition |
| FailoverTagger.TierListNoUnderscore | FailoverLib.py:365 | a joined tier list holds no `_` |
| FailoverTagger.SiteStringDeterminesBase | FailoverLib.py:366 | `tier_base` determines its tier and base |
| FailoverTagger.TierListRoundTrip | FailoverLib.py:364-365 | splitting a tier list on `,` gives back the sorted, distinct tiers of that key and base |
| FailoverTagger.Tiers | FailoverLib.py:364-365 | the tiers of the sites of one key with one base name; stated through TierListRoundTrip |
| FailoverTagger.TierList | FailoverLib.py:365 | `",".join(sorted(tiers))`; TierListRoundTrip and TierListNoUnderscore state that it gives the tiers back |
| FailoverTagger.CompactValue | FailoverLib.py:366-368 | the compacted value of one key; its meaning is stated by CompactSites |
| FailoverTagger.IpRows | FailoverLib.py:342-343 | the address rows are exactly the (address, site) pairs of entries that are neither `0.0.0.0` nor DNS |
| FailoverTagger.InstitutionRows | FailoverLib.py:346 | the institution rows are exactly the (institution, site) pairs |
| FailoverTagger.MakeTagger | FailoverLib.py:337-348 | the institution map sends `Unknown` to `Unknown` |
| FailoverTagger.MakeTaggerSquidKeys | FailoverLib.py:342-344 | an address is a key iff some valid squid entry has it with a site that has a base |
| FailoverTagger.MakeTaggerInstitutionKeys | FailoverLib.py:346-348 | an institution is a key iff it is `Unknown` or some entry has it with a site that has a base |
| FailoverTagger.AssignSiteWorkernode | FailoverLib.py:239-251 | the four loopback names give `localhost`; otherwise the host's organisation maps to its sites, or, if unmapped, to the organisation name itself |
| FailoverTagger.UnknownOrganisationTaggedUnknown | FailoverLib.py:244-249 | a host of unknown organisation is tagged `Unknown` |
| HourlyMonitor.LastHits | hourly-monitor.py:92 | the previous hits of a host, or none when the host is not in the last snapshot |
| HourlyMonitor.ComputeTrafficDelta | hourly-monitor.py:88-98 | one row per current host, in order, its columns copied; `Change` times the elapsed seconds equals the hit delta (current hits when the host is new) |
| HourlyMonitor.LastHitsOfDistinct | hourly-monitor.py:92 | with distinct hosts, the previous hits are that host's row |
| HourlyMonitor.DeltaOfKnownHost | hourly-monitor.py:90-94 | a host in both snapshots gets (now − last) / elapsed, not clamped, so it may be negative |
| HourlyMonitor.DeltaOfNewHost | hourly-monitor.py:92-94 | a host absent last time gets its current hits / elapsed, not zero |
| HourlyMonitor.DeltaRowsAreCurrentHosts | hourly-monitor.py:90-96 | a host only in the last snapshot never appears |
| HourlyMonitor.DeltaExample | hourly-monitor.py:88-98 | 150 hits after 100 over 100 s gives 0.5; a new host with 30 gives 0.3 |
| HourlyMonitor.HitsDelta | hourly-monitor.py:92 | the hits since the last snapshot, or all hits for a new host; stated by DeltaOfKnownHost and DeltaOfNewHost |
| HourlyMonitor.TagRows | hourly-monitor.py:100-107 | `add_institutions` gives every row the ISP of its host as institution, and the `IsSquid` column of lines 43-44 is true iff the host is in the squids' `Host` column; other columns unchanged |
| HourlyMonitor.NonSquid | hourly-monitor.py:111 | exactly the rows with `IsSquid` false |
| HourlyMonitor.Groups | hourly-monitor.py:113 | the group keys are the institutions with a non-squid row, sorted, each once |
| HourlyMonitor.HighGroups | hourly-monitor.py:114-115 | exactly the groups whose `Change` sum is strictly above the threshold, with their `Change` and `Bandwidth` sums |
| HourlyMonitor.HighGroupsNames | hourly-monitor.py:114-115 | every high institution is one of the group keys |
| HourlyMonitor.HighGroupsSorted | hourly-monitor.py:113-115 | over sorted group keys, the high table is in strictly ascending key order |
| HourlyMonitor.InstiHighExact | hourly-monitor.py:111-115 | an institution is high iff its non-squid `Change` sum exceeds the threshold; the high table is sorted and carries the sums |
| HourlyMonitor.InstiHigh | hourly-monitor.py:111-115 | the high-traffic institutions; their meaning is stated by InstiHighExact and ThresholdIsStrict |
| HourlyMonitor.ThresholdIsStrict | hourly-monitor.py:115 | a sum equal to the threshold is not high |
| HourlyMonitor.SquidRowsDoNotCount | hourly-monitor.py:111-115 | adding squid rows never changes which institutions are high |
| HourlyMonitor.NonSquidIgnoresSquidRows | hourly-monitor.py:111 | adding squid rows leaves the non-squid rows unchanged |
| HourlyMonitor.FilterAppend | hourly-monitor.py:111 | a mask selection distributes over concatenation |
| HourlyMonitor.FilterNone | hourly-monitor.py:111 | a selection that passes nothing is empty |
| HourlyMonitor.AliasOf | hourly-monitor.py:120 | the alias of a squid host, or none when the host is not a squid |
| HourlyMonitor.ExcessFailoverCheck | hourly-monitor.py:109-124 | fails exactly when squid hosts are not unique (the index `map` raises); otherwise returns the non-squid rows and the high institutions |
| HourlyMonitor.OffendingRowsExact | hourly-monitor.py:117-121 | the offending rows are exactly the rows, squid or not, of a high institution, with squid hosts shown by alias |
| HourlyMonitor.OffendingImage | hourly-monitor.py:117-121 | the shown rows are exactly the images of the selected rows |
| HourlyMonitor.OffendingSquidShowsAlias | hourly-monitor.py:120-121 | a squid row is shown under its alias |
| HourlyMonitor.Offending | hourly-monitor.py:117-121 | one offending row; stated by OffendingRowsExact and OffendingSquidShowsAlias |
| HourlyMonitor.ExitStatus | hourly-monitor.py:39-60 | exit 1 for a first run, 0 after a check |
| HourlyMonitor.Main | hourly-monitor.py:36-45 | the new snapshot is always saved; the run stops as a first run exactly when there is no previous snapshot |
| HourlyMonitor.MainChecksAfterFirstRun | hourly-monitor.py:36-45 | with a previous snapshot, the delta is tagged and checked against 10000 hits per hour, and the exit status is 0 |
| HourlyMonitor.MainAsWrittenNeverChecks | hourly-monitor.py:36-41 | as written, the snapshot is saved, a first run returns 1, and any later run fails before the check |
| HourlyMonitor.MainCorrectsTruthValue | hourly-monitor.py:39 | where the written `main` fails, the corrected one succeeds with the same saved snapshot |
| HourlyMonitor.MainAsWritten | hourly-monitor.py:36-41 | `main` as written: a first run saves and stops; with a previous snapshot the DataFrame truth test raises `ValueError` (the as-written half of the finding, stated by MainAsWrittenNeverChecks) |
| ProxyTables.PutSite | validate_parse_exceptionlist.py:377-380 | the site entry is replaced whole, a missing institution is created, and every other entry is kept |
| ProxyTables.PutSiteKeepsOthers | validate_parse_geolist.py:143-146 | writing one site of one institution leaves every other site of every institution as it was |
| ProxyTables.DirectFreeProxies | validate_parse_exceptionlist.py:359 | the proxies with the substring `;DIRECT` removed, split on `;`/`\|`, sorted and each once |
| ProxyTables.DirectFreeSingleHost | validate_parse_geolist.py:126 | a field that is one host once `;DIRECT` is gone yields just that host |
| ProxyTables.DirectFreeKeepsHostName | validate_parse_exceptionlist.py:359 | unlike `strip`, `a.ICT;DIRECT` keeps `a.ICT` |
| FailoverGeoList.ReplaceIsSubstringRemoval | validate_parse_exceptionlist.py:359 | `replace(';DIRECT','')` removes the substring only: `a.ICT;DIRECT` becomes `a.ICT` |
| ProxyTables.ListedHost | validate_parse_geolist.py:136 | the host of a URL is its second `:` field without `/`; `IndexError` when there is no `:` |
| ProxyTables.HostNamesExact | validate_parse_exceptionlist.py:370 | the list comprehension fails iff some URL lacks `:`; otherwise it gives one host per URL, in order |
| ProxyTables.ProxyListsEntry | validate_parse_exceptionlist.py:368-376 | the entry keeps the proxy list and pairs each proxy with its host |
| ProxyTables.ProxyListsEntryAddresses | validate_parse_exceptionlist.py:371-375 | `ProxyIP` is exactly the addresses of all hosts together |
| ExceptionListValidator.OldUpdate | validate_parse_exceptionlist.py:368-380 | succeeds iff every proxy has a `:`; the institution's site entry then carries the proxy list, its other sites are kept, and other institutions are unchanged |
| ExceptionListValidator.HostsFromContents | validate_parse_exceptionlist.py:385-394 | the host dictionary is built iff every spec has one or three fields; its keys are the spec hosts; each host's addresses are its all-family lookup, and its port that of the last spec naming it (HostsFromPorts) |
| ExceptionListValidator.BareHostGetsEmptyPort | validate_parse_exceptionlist.py:387-390 | a bare host gets port `''` |
| ExceptionListValidator.RemoveCharsAbsent | validate_parse_exceptionlist.py:386 | removing `/` from a spec without one changes nothing |
| ExceptionListValidator.NewUpdate | validate_parse_exceptionlist.py:382-399 | succeeds iff the host dictionary does; the site entry is replaced by it; the institution's other sites are kept; other institutions are unchanged |
| ExceptionListValidator.HostsDictLoop | validate_parse_exceptionlist.py:384-394 | the loop computes the host dictionary |
| ExceptionListValidator.SimpleGetHostIpv4 | validate_parse_exceptionlist.py:326-337 | a valid address resolves to itself alone; a lookup error gives `['0.0.0.0']`; otherwise exactly the addresses of `getaddrinfo(host, 0)` with no address family (lines 402-405), each once, so IPv6 addresses can appear |
| ExceptionListValidator.HostsDict | validate_parse_exceptionlist.py:384-394 | the host loop as a fold; its meaning is stated by HostsFromContents and HostsFromPorts |
| ExceptionListValidator.HostsFromPorts | validate_parse_exceptionlist.py:384-394 | each host gets the port of the last proxy spec naming it; a host no spec names keeps what it had |
| ExceptionListValidator.HostsFromLastPort | validate_parse_exceptionlist.py:384-394 | the port of a host is that of the last spec naming it |
| ExceptionListValidator.HostsFromUntouched | validate_parse_exceptionlist.py:384-394 | a host no spec names keeps its entry |
| ExceptionListValidator.AddSitesGet | validate_parse_exceptionlist.py:299-302 | the inner loop appends the institution to the list of each of its sites, creating missing lists |
| ExceptionListValidator.AddInstitutionsGet | validate_parse_exceptionlist.py:297-302 | the nested loops give each site the institutions listing it, in iteration order |
| ExceptionListValidator.ListingSorted | validate_parse_exceptionlist.py:297-302 | in ascending order, the listing is sorted and holds exactly the institutions with that site |
| ExceptionListValidator.InverseMapExact | validate_parse_exceptionlist.py:296-302 | a site is mapped iff some institution lists it, and its list holds exactly those institutions, sorted |
| ExceptionListValidator.InverseMap | validate_parse_exceptionlist.py:296-302 | the site-to-institutions map; its meaning is stated by InverseMapExact |
| ExceptionListValidator.AddSitesLoop | validate_parse_exceptionlist.py:299-302 | the inner loop computes the fold |
| ExceptionListValidator.ActionOf | validate_parse_exceptionlist.py:136-139 | the action is add iff the first character is `+`, remove iff `-` |
| ExceptionListValidator.ParseExceptionLine | validate_parse_exceptionlist.py:131-139 | nothing for blank and `#` lines; otherwise the site is the first token with every `+`/`-` removed, the action follows its first character, and the `+` and `-` hosts are selected |
| ExceptionListValidator.UnprefixedHostIgnored | validate_parse_exceptionlist.py:168-176 | an unprefixed host adds nothing, and the prefixed hosts still apply |
| ExceptionListValidator.RemoveSite | validate_parse_exceptionlist.py:140-144 | removing a site succeeds iff every mapped institution is in the table |
| ExceptionListValidator.RemoveSiteEffect | validate_parse_exceptionlist.py:140-144 | the site disappears from every mapped institution and nothing else changes |
| ExceptionListValidator.ClaimSite | validate_parse_exceptionlist.py:145-156 | every mapped institution ends up listing the site, and existing entries are kept |
| ExceptionListValidator.Register | validate_parse_exceptionlist.py:157-166 | the site becomes mapped; an unmapped site is filed under `NewSites` |
| ExceptionListValidator.LineProxies | validate_parse_exceptionlist.py:185-187 | hosts = (existing ∪ added) − removed: removal wins |
| ExceptionListValidator.ApplyOneEffect | validate_parse_exceptionlist.py:185-191 | an empty host set removes the site; otherwise the site entry becomes the new host dictionary |
| ExceptionListValidator.ApplyOne | validate_parse_exceptionlist.py:185-191 | one institution's update; its meaning is stated by ApplyOneEffect and ApplyOneSitesAfter |
| ExceptionListValidator.ApplyHosts | validate_parse_exceptionlist.py:184-191 | the per-institution loop as a fold; its meaning is stated by ApplyHostsEffect |
| ExceptionListValidator.ApplyOneSitesAfter | validate_parse_exceptionlist.py:185-191 | one institution's sites become exactly `SitesAfter`; it fails iff that fails; every other institution is unchanged |
| ExceptionListValidator.ApplyHostsEffect | validate_parse_exceptionlist.py:184-191 | for distinct institutions that all list the site: the loop fails iff one of their updates fails; on success no institution is added or lost, each listed institution holds exactly its `SitesAfter`, and all others are unchanged |
| ExceptionListValidator.ApplyHostsFails | validate_parse_exceptionlist.py:184-191 | the loop fails iff some institution's update fails |
| ExceptionListValidator.ApplyHostsKeeps | validate_parse_exceptionlist.py:184-191 | on success the institutions are the same and the unlisted ones are unchanged |
| ExceptionListValidator.ApplyHostsWrites | validate_parse_exceptionlist.py:184-191 | on success each listed institution holds exactly its `SitesAfter` |
| ExceptionListValidator.DistinctTail | validate_parse_exceptionlist.py:184-191 | a distinct institution list stays distinct without its head, and the head is not in the tail |
| ExceptionListValidator.ResetNewSites | validate_parse_exceptionlist.py:127-129 | `NewSites` is emptied at the start, and other institutions are kept |
| ExceptionListValidator.RemoveLineEffect | validate_parse_exceptionlist.py:140-144 | a `-` line leaves an unmapped site untouched; for a mapped site it deletes the site everywhere it is mapped and changes nothing else |
| ExceptionListValidator.UnregisteredSiteGoesToNewSites | validate_parse_exceptionlist.py:154-166 | an unmapped `+` or plain site is mapped to `NewSites` |
| ExceptionListValidator.StepLine | validate_parse_exceptionlist.py:131-191 | one pass of the line loop; its meaning is stated by RemoveLineEffect, UnregisteredSiteGoesToNewSites and ApplyHostsEffect |
| ExceptionListValidator.ChunkUpdate | validate_parse_exceptionlist.py:356-364 | writing one chunk adds its site under its institution, removes no site, and leaves other institutions unchanged |
| ExceptionListValidator.GeolistFromStep | validate_parse_exceptionlist.py:356-364 | helper: one pass of the chunk loop unfolded (the chunk is written, or its error ends the load) |
| ExceptionListValidator.GeolistFromEffect | validate_parse_exceptionlist.py:347-366 | every chunk's site is in its institution, and institutions no chunk names are unchanged |
| ExceptionListValidator.GeolistFrom | validate_parse_exceptionlist.py:356-364 | the chunk loop as a fold; its meaning is stated by GeolistFromEffect, InstitutionKept, ChunkSiteWritten, UnnamedKept and SitesKept |
| ExceptionListValidator.InstitutionKept | validate_parse_exceptionlist.py:356-364 | loading the geolist never removes an institution |
| ExceptionListValidator.ChunkSiteWritten | validate_parse_exceptionlist.py:356-364 | each chunk's site is under its institution after the load |
| ExceptionListValidator.FirstChunkSiteWritten | validate_parse_exceptionlist.py:356-364 | the first chunk's site survives the later chunks |
| ExceptionListValidator.UnnamedKept | validate_parse_exceptionlist.py:356-364 | an institution no chunk names keeps its sites exactly |
| ExceptionListValidator.SitesKept | validate_parse_exceptionlist.py:356-364 | loading the geolist never removes a site |
| ExceptionListValidator.SquidsList.constructor | validate_parse_exceptionlist.py:123 | the table starts as given |
| ExceptionListValidator.SquidsList.UpdateInstituteHostnames | validate_parse_exceptionlist.py:368-380 | the table becomes the updated one, or is unchanged on error |
| ExceptionListValidator.SquidsList.UpdateInstituteHostnamesNew | validate_parse_exceptionlist.py:382-399 | the table becomes the updated one, or is unchanged on error |
| ExceptionListValidator.SquidsList.ParseGeolist | validate_parse_exceptionlist.py:347-366 | the loop over chunks computes the fold |
| ExceptionListValidator.SquidsList.InitSiteToInstitutionsMapping | validate_parse_exceptionlist.py:296-302 | the nested loops compute the inverse map |
| ExceptionListValidator.SquidsList.RemoveSiteLoop | validate_parse_exceptionlist.py:142-144 | the removal loop computes `RemoveSite` |
| ExceptionListValidator.SquidsList.ClaimSiteLoop | validate_parse_exceptionlist.py:145-156 | the loop computes `ClaimSite` |
| ExceptionListValidator.SquidsList.ApplyHostsLoop | validate_parse_exceptionlist.py:185-191 | the per-institution loop computes `ApplyHosts`: each listing institution gets exactly its `SitesAfter`, the rest is unchanged (ApplyHostsEffect) |
| ExceptionListValidator.SquidsList.ApplyLine | validate_parse_exceptionlist.py:131-191 | one iteration computes the step on the table and the site map |
| ExceptionListValidator.LinesFromStep | validate_parse_exceptionlist.py:131-201 | helper: one pass of the line loop unfolded (the line's step is applied, or its error ends the parse) |
| ExceptionListValidator.SquidsList.ParseExceptionListNew | validate_parse_exceptionlist.py:123-201 | the whole loop computes the fold of the lines |
| ExceptionListValidator.ExceptionListNew | validate_parse_exceptionlist.py:123-201 | what `parse_exception_list_new` computes, as a fold over the lines; stated through StepLine's lemmas |
| GeoListValidator.HostIps | validate_parse_geolist.py:106-114 | the addresses of `gethostbyname_ex`, or `['0.0.0.0']` on error |
| GeoListValidator.DirectoryKey | validate_parse_geolist.py:50 | the key is found iff the line holds ` "/`, and it holds no `">` |
| GeoListValidator.Quoted | validate_parse_geolist.py:59-75 | a quoted value is found iff there is a second token holding `"`, and it holds no `"` |
| GeoListValidator.MergeProxies | validate_parse_geolist.py:66-81 | `NameError` before a key or site is set, `KeyError` for a missing entry; otherwise only that site's `HttpProxy` changes, to the sorted, distinct union of old and new |
| GeoListValidator.DirectoryLevels | validate_parse_geolist.py:46-55 | `<Directory` moves level 1 to 2; at level 2 it sets the key, creates the institution if absent and moves to 3; deeper it changes nothing; `</Directory>` decrements |
| GeoListValidator.LocalSiteEffect | validate_parse_geolist.py:59-65 | `LocalSite` sets the current site and creates it only when absent |
| GeoListValidator.UnknownKeywordIgnored | validate_parse_geolist.py:82-83 | unknown keywords at level 3 change nothing |
| GeoListValidator.OutsideSitesIgnored | validate_parse_geolist.py:56-58 | non-`Directory` lines outside level 3 change nothing |
| GeoListValidator.BlankLineIgnored | validate_parse_geolist.py:40-44 | blank lines change nothing |
| GeoListValidator.ProxyLineMerges | validate_parse_geolist.py:66-81 | at level 3, an `HttpProxy` line merges its `\|`-separated proxies into the site and a `Proxy+` line merges its one rebuilt URL; a line without a quoted value fails |
| GeoListValidator.ScanLineKeeps | validate_parse_geolist.py:37-84 | one line never removes an institution or a site |
| GeoListValidator.ScanFromKeeps | validate_parse_geolist.py:37-84 | the scan never removes a site |
| GeoListValidator.ScanLine | validate_parse_geolist.py:40-84 | one line of the scan; its meaning is stated by DirectoryLevels, LocalSiteEffect, ProxyLineMerges, UnknownKeywordIgnored, OutsideSitesIgnored, BlankLineIgnored and ScanLineKeeps |
| GeoListValidator.ScanFrom | validate_parse_geolist.py:37-84 | the line loop as a fold; stated by ScanFromKeeps |
| GeoListValidator.HttpProxyListAgrees | validate_parse_geolist.py:70 | the `HttpProxy` split matches the chunk loaders', and once sorted it is their proxy list |
| GeoListValidator.UrlHost | validate_parse_geolist.py:91-94 | the host after `://` holds no `:` |
| GeoListValidator.ProxyHostsExact | validate_parse_geolist.py:89-95 | membership and a length bound: a host is in `ProxyHost` iff some proxy has it after `://`, and the list has no more entries than there are proxies (duplicates are not excluded) |
| GeoListValidator.ProxyHostsAppend | validate_parse_geolist.py:91-95 | the hosts keep their proxies' order: the list for `a + b` is the list for `a` followed by the list for `b` |
| GeoListValidator.ProxyIpsExact | validate_parse_geolist.py:96-100 | `ProxyIP` holds exactly the addresses of those hosts, `0.0.0.0` for a failed lookup |
| GeoListValidator.ProxyHosts | validate_parse_geolist.py:91-95 | the host names of a site's proxies; stated by ProxyHostsExact |
| GeoListValidator.ProxyIps | validate_parse_geolist.py:96-100 | the addresses of those hosts; stated by ProxyIpsExact |
| GeoListValidator.Rebuild | validate_parse_geolist.py:88-100 | one site rebuilt; stated by ProxyHostsExact, ProxyIpsExact and RebuildEntry |
| GeoListValidator.UrlHostOf | validate_parse_geolist.py:91-94 | `proto://host:port` gives `host` |
| GeoListValidator.FindSchemeSeparator | validate_parse_geolist.py:92 | `://` is found right after the scheme |
| GeoListValidator.NoSchemeSeparator | validate_parse_geolist.py:92 | `host:port` holds no `://` |
| GeoListValidator.ProxyPlusHost | validate_parse_geolist.py:74-81 | the `Proxy+` URL `++++://host:++++` gives back `host` |
| GeoListValidator.RebuiltSites | validate_parse_geolist.py:86-100 | the rebuild keeps each institution's sites |
| GeoListValidator.Rebuilt | validate_parse_geolist.py:86-100 | the rebuild keeps the institutions |
| GeoListValidator.RebuildEntry | validate_parse_geolist.py:88-100 | the loop over one site's proxies computes its hosts and addresses |
| GeoListValidator.MapAtEffect | validate_parse_geolist.py:86-88 | updating each key in turn changes exactly those keys |
| GeoListValidator.RebuildAllSites | validate_parse_geolist.py:87-100 | visiting every site in order is the rebuild |
| GeoListValidator.RebuildAllInstitutions | validate_parse_geolist.py:86-100 | visiting every institution in order is the rebuild |
| GeoListValidator.RebuildSites | validate_parse_geolist.py:87-100 | the loop over one institution's sites computes the rebuild |
| GeoListValidator.GeolistNewEntryAddresses | validate_parse_geolist.py:134-146 | a site entry's `ProxyIP` is exactly the addresses of its hosts |
| GeoListValidator.IndexKeysSize | validate_parse_geolist.py:149-150 | there are `n` index keys |
| GeoListValidator.ListToDict | validate_parse_geolist.py:149-150 | keys are `str(0)` … `str(n-1)`, and `str(i)` maps to `l[i]` |
| GeoListValidator.NewIndexKey | validate_parse_geolist.py:149-150 | the key of a new index differs from every earlier index's key |
| GeoListValidator.ListToDictSize | validate_parse_geolist.py:149-150 | the dictionary has exactly `len(l)` keys |
| GeoListValidator.SiteSquids.constructor | validate_parse_geolist.py:34 | the table starts as given |
| GeoListValidator.SiteSquids.ScanOne | validate_parse_geolist.py:40-84 | one line of the state machine, on the table and the level, key and site variables |
| GeoListValidator.SiteSquids.ScanLines | validate_parse_geolist.py:37-84 | the readline loop computes the scan from level 1 |
| GeoListValidator.SiteSquids.RebuildAll | validate_parse_geolist.py:86-100 | the rebuild loops compute `Rebuilt` |
| GeoListValidator.SiteSquids.ParseGeolistOriginal | validate_parse_geolist.py:34-103 | the whole parse is the scan followed by the rebuild |
| GeoListValidator.GeolistOriginal | validate_parse_geolist.py:34-103 | what `parse_geolist` (original) computes: the scan, then the rebuild of every site; stated through ScanFromKeeps and the rebuild lemmas |
| GeoListValidator.SiteSquids.UpdateInstituteHostnames | validate_parse_geolist.py:134-146 | the site entry is replaced, or the table is unchanged on error |
| GeoListValidator.GeolistNewStep | validate_parse_geolist.py:125-130 | helper: one pass of the chunk loop unfolded (the site entry is written, or its error ends the load) |
| GeoListValidator.SiteSquids.UpdateFirstChunk | validate_parse_geolist.py:126-130 | one iteration writes the first chunk's entry, or reports its error |
| GeoListValidator.SiteSquids.UpdateChunks | validate_parse_geolist.py:125-130 | the chunk loop computes `GeolistNewFrom`, whose effect GeolistNewEffect states |
| GeoListValidator.SiteSquids.ParseGeolistNew | validate_parse_geolist.py:116-132 | the whole parse is the chunk loop over the geolist's six-token chunks: it fails iff a chunk's entry fails (GeolistNewFails), and otherwise writes each chunk's site as GeolistNewEffect states |
| GeoListValidator.GeolistNewFrom | validate_parse_geolist.py:125-130 | the chunk loop as a fold; its meaning is stated by GeolistNewFails and GeolistNewEffect |
| GeoListValidator.GeolistNewFails | validate_parse_geolist.py:125-130 | the load fails exactly when some chunk's entry fails (a proxy without `:`) |
| GeoListValidator.GeolistNewEffect | validate_parse_geolist.py:125-146 | on success: no institution is lost; every chunk's site is present under its institution; a chunk with no later chunk naming the same institution and site leaves its entry there; an institution no chunk names is unchanged |
| GeoListValidator.GeolistNewSitePresent | validate_parse_geolist.py:125-146 | a site already in the table is still present after the load |
| GeoListValidator.GeolistNewSiteUntouched | validate_parse_geolist.py:125-146 | a site no chunk names keeps its entry |
| GeoListValidator.GeolistNewChunkWritten | validate_parse_geolist.py:125-146 | a chunk writes its site's entry |
| GeoListValidator.GeolistNewLastWriter | validate_parse_geolist.py:125-146 | a chunk with no later chunk naming the same institution and site leaves its entry in the final table |
| GeoListValidator.GeolistNewUnnamedKept | validate_parse_geolist.py:125-146 | an institution no chunk names is unchanged |
| GeoListValidator.GeolistNewKeepsInstitutions | validate_parse_geolist.py:125-146 | no institution is removed |
| GeoListValidator.AllChunksWritten | validate_parse_geolist.py:125-146 | every chunk's site is present after the load |
| GeoListValidator.AllLastWriters | validate_parse_geolist.py:125-146 | every last-writing chunk's entry is in the final table |
| GeoListValidator.AllUnnamedKept | validate_parse_geolist.py:125-146 | every institution no chunk names is unchanged |

## Left out

- File, network and JSON I/O are not modelled, and the file contents are inputs. This covers:
  - `get_url`;
  - AWStats loading (`load_awstats_data`, `get_awstats_hosts_info`, `download_aggregated_awstats_data`, `load_aggregated_awstats_data`);
  - `load_last_data` and `save_last_data`;
  - the JSON branch of `init_site_to_institutions_mapping`;
  - the scripts' `main` functions that write files.
- DNS, reverse DNS, GeoIP and `get_isp` are uninterpreted function parameters. The `getaddrinfo` result is a set, so its order is not modelled.
- `unicode`/`unidecode` decoding: the input is taken as ASCII.
- Python `set` and `dict` iteration order is taken as ascending string order. Where two proxy specs name the same host with different ports, the last one written wins in the model. Python's hash order may pick another.
- `print` warnings are not modelled; this includes the inconsistency messages of the JSON mapping branch.
- pandas `sortlevel` on the offending table is not modelled: the model states which rows are offending, not their order.
- `Change` is an exact real, not an IEEE float.
- `ComputeTrafficDelta` and `Main` require two snapshots with different timestamps. A zero interval gives `inf`/`NaN` in pandas, and that is not modelled.
- `datetime_to_UTC_epoch` and `parse_timestamp_column`: timestamps are integers of epoch seconds.
- `build_squids_list`, `load_aggregated_awstats_data` and `get_isp` are not part of this model. Their results are inputs.
- `gen_report`, `tag_hosts` and `CMSTagger.tag_hosts` are not modelled. The last two only apply `assign_site_workernode` to a column.
- `get_host_ipv4_addr`, `safe_geo_fun` and `GeoIPWrapper` wrap the lookups, which are parameters here.
- `parse_exception_list_original` is not modelled: it depends on a per-host ISP shell-out. `parse_exception_list_new2` is the same code as `parse_exception_list_new`.
- `async_DNS_tests.py`, `dd` and the JavaScript front end are not modelled.
- The state of a table after a Python exception is left unspecified: the source mutates a default-argument dictionary and may leave it half updated. `ParseGeolist`, `RemoveSiteLoop`, `ApplyHostsLoop`, `ApplyLine`, `ParseExceptionListNew`, `ScanOne`, `ScanLines`, `ParseGeolistOriginal` and `ParseGeolistNew` state only the error they return in that case.
- `hosts_to_add.discard (hosts_to_remove)` at validate_parse_exceptionlist.py:173 is not modelled because it has no effect. Its argument is a set, which Python looks up as a frozenset, and no `str` element of `hosts_to_add` equals a frozenset. Any host in both sets is removed anyway by `proxies.difference_update (hosts_to_remove)` at :187, after `proxies.update (hosts_to_add)` at :186; `LineProxies`, which `ApplyOne` and `SitesAfter` use, models that order.
- GeoListValidator.LocalSiteEffect: the source's `LocalSite` branch creates a site with an `HttpProxy` list only. The model's site record also has `ProxyHost` and `ProxyIP`, which start empty. The rebuild pass sets both for every site before the function returns, so the final table is the same.

## Findings

| source | as written | input that shows it | evidently intended | confidence | as-written member | corrected member |
|---|---|---|---|---|---|---|
| hourly-monitor.py:39 | `if not last_awdata:` takes the truth value of a pandas DataFrame, which raises `ValueError` in pandas 0.13 and later (older pandas took a non-empty DataFrame as true) | any run after the first, where `load_last_data` returns the previous snapshot | `if last_awdata is None:` — stop only on the first run, then compute the delta and check | not executed | HourlyMonitor.MainAsWrittenNeverChecks | HourlyMonitor.MainCorrectsTruthValue |
