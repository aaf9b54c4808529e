/**
 * Host resolution in FailoverLib.py: dotted-quad validation, IPv4 lookup with the
 * `0.0.0.0` sentinel, and the expansion of one listed proxy into topology rows
 * (`gen_geo_entries`). DNS and `socket.getfqdn` are injected functions.
 */
module FailoverHosts {
  import opened Results
  import opened PyText
  import opened StrOrder

  /** What a `socket.getaddrinfo` call yields: a set of addresses, or socket.error. */
  datatype Lookup = Resolved(addrs: set<string>) | Unresolvable

  /**
   * The name-service calls the code makes: `getaddrinfo(host, 0, AF_INET)` (IPv4 only),
   * `getaddrinfo(host, 0)` with no family (IPv4 and IPv6 addresses alike), and
   * `socket.getfqdn(ip)`.
   */
  datatype Resolver = Resolver(addrInfo: string -> Lookup, addrInfoAny: string -> Lookup, fqdn: string -> string)

  /** The sentinel address standing for "could not be resolved". */
  const Unresolved: string := "0.0.0.0"

  /** One row of the topology table built from the proxy list. */
  datatype GeoEntry = GeoEntry(
    institution: string,
    site: string,
    host: string,     // reverse-resolved name, or the listed name for an unresolved host
    alias: string,    // the name as listed
    ip: string,
    port: string,
    isDNS: bool)      // the listed name resolved to more than one address

  /** One `.`-separated part of an address: `int(x)` succeeds and lies in [0, 256). */
  predicate IsByte(part: string)
  {
    var v := ParseInt(part);
    v.Some? && 0 <= v.value < 256
  }

  /** `is_a_valid_ip`: four `.`-separated parts, each an integer in [0, 255]; an int() failure means false. */
  predicate IsValidIp(address: string)
  {
    var parts := SplitOn(address, ".");
    |parts| == 4 && forall i :: 0 <= i < 4 ==> IsByte(parts[i])
  }

  /** Four parts, none containing a dot, each a byte: what a valid address is made of. */
  predicate IsDottedQuad(parts: seq<string>)
  {
    |parts| == 4 && QuadPart(parts[0]) && QuadPart(parts[1]) && QuadPart(parts[2]) && QuadPart(parts[3])
  }

  predicate QuadPart(p: string)
  {
    '.' !in p && IsByte(p)
  }

  lemma Join4(a: string, b: string, c: string, d: string)
    ensures Join(".", [a, b, c, d]) == a + "." + b + "." + c + "." + d
  {
    JoinCons(".", c, [d]);
    assert [b, c, d] == [b] + [c, d];
    JoinCons(".", b, [c, d]);
    assert [a, b, c, d] == [a] + [b, c, d];
    JoinCons(".", a, [b, c, d]);
  }

  /** A valid address is the dot-join of its four parts, and those parts form a dotted quad. */
  lemma ValidIpIsDottedQuad(address: string)
    requires IsValidIp(address)
    ensures IsDottedQuad(SplitOn(address, "."))
    ensures Join(".", SplitOn(address, ".")) == address
  {
    var split := SplitOn(address, ".");
    JoinSplitOn(address, ".");
    SplitOnCharPieces(address, '.');
    assert forall i :: 0 <= i < 4 ==> split[i] in split;
  }

  /** Joining any dotted quad with dots gives a valid address. */
  lemma DottedQuadIsValidIp(parts: seq<string>)
    requires IsDottedQuad(parts)
    ensures IsValidIp(Join(".", parts))
  {
    forall i | 0 <= i < |parts| ensures '.' !in parts[i] {
      if i == 0 {} else if i == 1 {} else if i == 2 {} else { assert i == 3; }
    }
    SplitOnJoin(parts, '.');
    assert ['.'] == ".";
    ValidIpOfParts(Join(".", parts), parts);
  }

  /** An address whose four `.`-separated parts are bytes is valid. */
  lemma ValidIpOfParts(address: string, parts: seq<string>)
    requires SplitOn(address, ".") == parts
    requires |parts| == 4 && IsByte(parts[0]) && IsByte(parts[1]) && IsByte(parts[2]) && IsByte(parts[3])
    ensures IsValidIp(address)
  {
    forall i | 0 <= i < 4 ensures IsByte(parts[i]) {
      if i == 0 {} else if i == 1 {} else if i == 2 {} else { assert i == 3; }
    }
  }

  lemma RenderedByte(n: nat)
    requires n < 256
    ensures QuadPart(NatToString(n))
  {
    ParseIntNatToString(n);
  }

  /** Every address written as `str(a).str(b).str(c).str(d)` with bytes a..d is valid. */
  lemma RenderedQuadIsValid(a: nat, b: nat, c: nat, d: nat)
    requires a < 256 && b < 256 && c < 256 && d < 256
    ensures IsValidIp(NatToString(a) + "." + NatToString(b) + "." + NatToString(c) + "." + NatToString(d))
  {
    RenderedByte(a);
    RenderedByte(b);
    RenderedByte(c);
    RenderedByte(d);
    QuadIsValid(NatToString(a), NatToString(b), NatToString(c), NatToString(d));
  }

  lemma QuadIsValid(p: string, q: string, r: string, s: string)
    requires QuadPart(p) && QuadPart(q) && QuadPart(r) && QuadPart(s)
    ensures IsValidIp(p + "." + q + "." + r + "." + s)
  {
    var parts := [p, q, r, s];
    QuadPartsDottedQuad(p, q, r, s);
    DottedQuadIsValidIp(parts);
    Join4(p, q, r, s);
  }

  lemma QuadPartsDottedQuad(p: string, q: string, r: string, s: string)
    requires QuadPart(p) && QuadPart(q) && QuadPart(r) && QuadPart(s)
    ensures IsDottedQuad([p, q, r, s])
  {
  }

  /** Three parts are not an address, however they read. */
  lemma ThreePartsInvalid(a: string, b: string, c: string)
    requires '.' !in a && '.' !in b && '.' !in c
    ensures !IsValidIp(a + "." + b + "." + c)
  {
    JoinCons(".", b, [c]);
    assert [a, b, c] == [a] + [b, c];
    JoinCons(".", a, [b, c]);
    SplitOnJoin([a, b, c], '.');
    assert ['.'] == ".";
    assert Join(".", [a, b, c]) == a + "." + b + "." + c;
    assert SplitOn(a + "." + b + "." + c, ".") == [a, b, c];
  }

  /** A first part that is not a byte makes the address invalid, whatever follows. */
  lemma NonBytePartInvalid(p: string, q: string, r: string, s: string)
    requires '.' !in p && '.' !in q && '.' !in r && '.' !in s
    requires !IsByte(p)
    ensures !IsValidIp(p + "." + q + "." + r + "." + s)
  {
    Join4(p, q, r, s);
    SplitOnJoin([p, q, r, s], '.');
    assert ['.'] == ".";
  }

  /** `256` is an integer but not a byte, so `256.0.0.1` is rejected. */
  lemma ByteOutOfRangeInvalid()
    ensures !IsValidIp("256.0.0.1")
  {
    NoSpaceStripped("256");
    assert DigitsValue("256") == 256 by {
      assert "256"[..2] == "25" && "25"[..1] == "2";
    }
    NonBytePartInvalid("256", "0", "0", "1");
    assert "256" + "." + "0" + "." + "0" + "." + "1" == "256.0.0.1";
  }

  /**
   * The shape both validators and FailoverLib.py share: a literal address is returned
   * alone, a resolvable name gives `list(set_of_addresses)`, and a lookup error gives the
   * sentinel.
   */
  function AddressesOf(hostname: string, lookup: string -> Lookup): (r: seq<string>)
    ensures IsValidIp(hostname) ==> r == [hostname]
    ensures !IsValidIp(hostname) && lookup(hostname).Unresolvable? ==> r == [Unresolved]
    ensures !IsValidIp(hostname) && lookup(hostname).Resolved? ==>
      |r| == |lookup(hostname).addrs| && forall x :: x in r <==> x in lookup(hostname).addrs
    ensures forall i, j :: 0 <= i < j < |r| ==> r[i] != r[j]
  {
    if IsValidIp(hostname) then [hostname]
    else
      match lookup(hostname)
      case Resolved(addrs) =>
        var r := SortedElems(addrs);
        StrictlySortedDistinct(r);
        r
      case Unresolvable => [Unresolved]
  }

  /** `simple_get_hosts_ipv4_addrs`: the lookup restricted to IPv4 by `AF_INET`. */
  function SimpleGetHostsIpv4Addrs(hostname: string, res: Resolver): (r: seq<string>)
    ensures IsValidIp(hostname) ==> r == [hostname]
    ensures !IsValidIp(hostname) && res.addrInfo(hostname).Unresolvable? ==> r == [Unresolved]
    ensures !IsValidIp(hostname) && res.addrInfo(hostname).Resolved? ==>
      |r| == |res.addrInfo(hostname).addrs| && forall x :: x in r <==> x in res.addrInfo(hostname).addrs
    ensures forall i, j :: 0 <= i < j < |r| ==> r[i] != r[j]
  {
    AddressesOf(hostname, res.addrInfo)
  }

  /** A proxy spec split at `:` into the listed host name and the port. */
  datatype HostSpec = HostSpec(host: string, port: string)

  /**
   * `host_data = spec.split(':')`: one field is a bare host with port `''`; three fields
   * unpack as protocol, host, port; any other count raises ValueError in the unpacking.
   */
  function ParseHostSpec(spec: string): (r: Result<HostSpec>)
    ensures !Contains(spec, ":") ==> r == Success(HostSpec(spec, ""))
    ensures r.Success? <==> |SplitOn(spec, ":")| == 1 || |SplitOn(spec, ":")| == 3
  {
    var fields := SplitOn(spec, ":");
    if |fields| == 1 then Success(HostSpec(fields[0], ""))
    else if |fields| == 3 then Success(HostSpec(fields[1], fields[2]))
    else Failure(ValueError("wrong number of ':' fields in " + spec))
  }

  /** A three-field spec such as `http://squid.example.org:3128` splits into its middle and last fields. */
  lemma ParseHostSpecThreeFields(protocol: string, host: string, port: string)
    requires ':' !in protocol && ':' !in host && ':' !in port
    ensures ParseHostSpec(protocol + ":" + host + ":" + port) == Success(HostSpec(host, port))
  {
    var parts := [protocol, host, port];
    JoinCons(":", host, [port]);
    assert parts == [protocol] + [host, port];
    JoinCons(":", protocol, [host, port]);
    SplitOnJoin(parts, ':');
    assert [':'] == ":";
    assert Join(":", parts) == protocol + ":" + host + ":" + port;
    assert SplitOn(protocol + ":" + host + ":" + port, ":") == parts;
  }

  /** The row `gen_geo_entries` appends for one resolved address. */
  function EntryFor(institution: string, site: string, spec: HostSpec, ip: string, isDNS: bool, res: Resolver): GeoEntry
  {
    var host := if ip == Unresolved then spec.host else res.fqdn(ip);
    GeoEntry(institution, site, host, spec.host, ip, spec.port, isDNS)
  }

  /**
   * What `gen_geo_entries` returns: one row per address the listed name resolves to,
   * in resolution order, or the ValueError of a malformed spec.
   */
  function GeoEntries(squidHostname: string, institution: string, site: string, res: Resolver): (r: Result<seq<GeoEntry>>)
    ensures r.Failure? <==> ParseHostSpec(squidHostname).Failure?
    ensures r.Success? ==>
      var spec := ParseHostSpec(squidHostname).value;
      var ips := SimpleGetHostsIpv4Addrs(spec.host, res);
      && |r.value| == |ips|
      && forall i :: 0 <= i < |ips| ==>
        && r.value[i].ip == ips[i]
        && r.value[i].alias == spec.host
        && r.value[i].port == spec.port
        && r.value[i].institution == institution
        && r.value[i].site == site
        && (r.value[i].isDNS <==> |ips| > 1)
        && r.value[i].host == (if ips[i] == Unresolved then spec.host else res.fqdn(ips[i]))
  {
    match ParseHostSpec(squidHostname)
    case Failure(e) => Failure(e)
    case Success(spec) =>
      var ips := SimpleGetHostsIpv4Addrs(spec.host, res);
      var isDNS := |ips| > 1;
      Success(seq(|ips|, i requires 0 <= i < |ips| => EntryFor(institution, site, spec, ips[i], isDNS, res)))
  }

  /** An unresolvable name yields exactly one row, whose host is the listed name and which is not a DNS alias. */
  lemma GeoEntriesUnresolvable(squidHostname: string, institution: string, site: string, res: Resolver)
    requires ParseHostSpec(squidHostname).Success?
    requires var h := ParseHostSpec(squidHostname).value.host;
      !IsValidIp(h) && res.addrInfo(h).Unresolvable?
    ensures var r := GeoEntries(squidHostname, institution, site, res);
      var h := ParseHostSpec(squidHostname).value.host;
      r.Success? && |r.value| == 1 && r.value[0].host == h && r.value[0].alias == h
      && r.value[0].ip == Unresolved && !r.value[0].isDNS
  {
  }

  /** `gen_geo_entries`: resolve the listed name and append one row per address. */
  method GenGeoEntries(squidHostname: string, institution: string, site: string, res: Resolver)
    returns (r: Result<seq<GeoEntry>>)
    ensures r == GeoEntries(squidHostname, institution, site, res)
  {
    var hostData := SplitOn(squidHostname, ":");
    var listedHostName, port;
    if |hostData| == 1 {
      listedHostName, port := hostData[0], "";
    } else if |hostData| == 3 {
      listedHostName, port := hostData[1], hostData[2];
    } else {
      return Failure(ValueError("wrong number of ':' fields in " + squidHostname));
    }
    var spec := HostSpec(listedHostName, port);
    assert ParseHostSpec(squidHostname) == Success(spec);
    var ipAddresses := SimpleGetHostsIpv4Addrs(listedHostName, res);
    var entries := EntriesFor(institution, site, spec, ipAddresses, res);
    ghost var expected := GeoEntries(squidHostname, institution, site, res).value;
    assert |entries| == |expected|;
    assert forall j :: 0 <= j < |entries| ==> entries[j] == expected[j];
    assert entries == expected;
    return Success(entries);
  }

  /** The loop of `gen_geo_entries`: one row per resolved address, in order. */
  method EntriesFor(institution: string, site: string, spec: HostSpec, ipAddresses: seq<string>, res: Resolver)
    returns (entries: seq<GeoEntry>)
    ensures |entries| == |ipAddresses|
    ensures forall j :: 0 <= j < |ipAddresses| ==> entries[j] == EntryFor(institution, site, spec, ipAddresses[j], |ipAddresses| > 1, res)
  {
    var isDNS := |ipAddresses| > 1;
    entries := [];
    for k := 0 to |ipAddresses|
      invariant |entries| == k
      invariant forall j :: 0 <= j < k ==> entries[j] == EntryFor(institution, site, spec, ipAddresses[j], isDNS, res)
    {
      var ip := ipAddresses[k];
      var hostName := if ip == Unresolved then spec.host else res.fqdn(ip);
      entries := entries + [GeoEntry(institution, site, hostName, spec.host, ip, spec.port, isDNS)];
    }
  }
}
