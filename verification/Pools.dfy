/** Grouping the cluster's addresses into pools (config/addresspool.go and
    computeAddressPools in config/config.go). */
module Pools {
  import opened Wrappers
  import opened Text
  import opened Metal
  import opened Reconcile

  const BGP_PROTOCOL := "bgp"

  datatype AddressPool = AddressPool(name: string, protocol: string, autoAssign: Option<bool>, cidrs: seq<string>)

  /** The host CIDR of an address text, if the text parses; any such function will do. */
  type Canonical = string -> Option<string>

  function NewBGPAddressPool(name: string): AddressPool {
    AddressPool(name, BGP_PROTOCOL, Some(false), [])
  }

  // ---- pool names ----

  function GetPoolName(network: string, iptype: Option<string>): string {
    var poolType := if iptype == Some(STATIC) then STATIC else EPHEMERAL;
    ToLower(network) + "-" + poolType
  }

  /** The network that acquireIPFromSpecificNetwork takes from a pool name: it trims the suffix twice. */
  function NetworkOfPool(poolName: string): string {
    TrimSuffix(TrimSuffix(poolName, "-" + EPHEMERAL), "-" + EPHEMERAL)
  }

  /** Pool names tell networks apart up to case, and static addresses from all others. */
  lemma PoolNameInjective(network: string, iptype: Option<string>, network': string, iptype': Option<string>)
    ensures GetPoolName(network, iptype) == GetPoolName(network', iptype')
            <==> ToLower(network) == ToLower(network') && (iptype == Some(STATIC) <==> iptype' == Some(STATIC))
  {
    var name, name' := GetPoolName(network, iptype), GetPoolName(network', iptype');
    assert iptype == Some(STATIC) ==> name == ToLower(network) + "-static";
    assert iptype != Some(STATIC) ==> name == ToLower(network) + "-ephemeral";
    assert iptype' == Some(STATIC) ==> name' == ToLower(network') + "-static";
    assert iptype' != Some(STATIC) ==> name' == ToLower(network') + "-ephemeral";
    if name == name' {
      assert name[|name| - 1] == if iptype == Some(STATIC) then 'c' else 'l';
      assert name'[|name'| - 1] == if iptype' == Some(STATIC) then 'c' else 'l';
      assert ToLower(network) == name[..|ToLower(network)|];
      assert ToLower(network') == name'[..|ToLower(network')|];
    }
  }

  /** Exactly which networks come back from the names of their ephemeral pools. */
  lemma NetworkOfEphemeralPool(network: string, iptype: Option<string>)
    requires iptype != Some(STATIC)
    ensures NetworkOfPool(GetPoolName(network, iptype)) == network
            <==> ToLower(network) == network && !HasSuffix(network, "-" + EPHEMERAL)
  {
    var suffix := "-" + EPHEMERAL;
    assert GetPoolName(network, iptype) == ToLower(network) + suffix;
    SuffixOfConcat(ToLower(network), suffix);
  }

  /** The name of a static pool is never trimmed, so it is not a network name at all. */
  lemma StaticPoolIsNotTrimmed(network: string)
    ensures NetworkOfPool(GetPoolName(network, Some(STATIC))) == GetPoolName(network, Some(STATIC)) != network
  {
    var name := GetPoolName(network, Some(STATIC));
    assert name == ToLower(network) + "-static";
    assert name[|name| - 1] == 'c';
    if HasSuffix(name, "-" + EPHEMERAL) {
      SuffixEndsAlike(name, "-" + EPHEMERAL);
      assert false;
    }
  }

  /** The two ways in which a network is not recovered: upper case, and a suffix of its own. */
  lemma NetworkLost()
    ensures NetworkOfPool(GetPoolName("Internet", Some(EPHEMERAL))) != "Internet"
    ensures NetworkOfPool(GetPoolName("internet" + "-" + EPHEMERAL, Some(EPHEMERAL))) != "internet" + "-" + EPHEMERAL
  {
    NetworkOfEphemeralPool("Internet", Some(EPHEMERAL));
    assert ToLower("Internet")[0] == 'i';
    NetworkOfEphemeralPool("internet" + "-" + EPHEMERAL, Some(EPHEMERAL));
    assert "internet" + "-" + EPHEMERAL == "internet" + ("-" + EPHEMERAL);
    SuffixOfConcat("internet", "-" + EPHEMERAL);
  }

  /** An address acquired from a named pool lands in the pool of that name exactly if the name
      is in lower case and has the ephemeral suffix, once. */
  lemma AcquiredLandsInPool(poolName: string, address: string, project: string, tags: seq<string>)
    ensures PoolOf(Response(address, IPRecord(project, Some(NetworkOfPool(poolName)), EPHEMERAL, tags))) == poolName
            <==> && ToLower(poolName) == poolName && HasSuffix(poolName, "-" + EPHEMERAL)
                 && !HasSuffix(TrimSuffix(poolName, "-" + EPHEMERAL), "-" + EPHEMERAL)
  {
    var suffix := "-" + EPHEMERAL;
    assert ToLower(suffix) == suffix;
    assert GetPoolName(NetworkOfPool(poolName), Some(EPHEMERAL)) == ToLower(NetworkOfPool(poolName)) + suffix;
    TrimTwiceAndAppend(poolName, suffix);
  }

  // ---- what the pools should be ----

  predicate InNetworks(ip: IPResponse, nws: set<string>) {
    ip.networkid.Some? && ip.networkid.value in nws
  }

  function PoolOf(ip: IPResponse): string {
    GetPoolName(if ip.networkid.Some? then ip.networkid.value else "", ip.iptype)
  }

  function Cidr(ip: IPResponse, canon: Canonical): Option<string> {
    if ip.ipaddress.Some? then canon(ip.ipaddress.value) else None
  }

  /** A CIDR and the pool it belongs to. */
  datatype Place = Place(pool: string, cidr: string)

  /** Where the addresses in the networks belong, in order. */
  function Places(ips: seq<IPResponse>, nws: set<string>, canon: Canonical): seq<Place> {
    if ips == [] then []
    else
      var ip := ips[|ips| - 1];
      Places(ips[..|ips| - 1], nws, canon)
      + if InNetworks(ip, nws) && Cidr(ip, canon).Some? then [Place(PoolOf(ip), Cidr(ip, canon).value)] else []
  }

  /** The CIDRs that go to a pool, in order. */
  function CidrsFor(places: seq<Place>, pool: string): seq<string> {
    if places == [] then []
    else
      var last := places[|places| - 1];
      CidrsFor(places[..|places| - 1], pool) + if last.pool == pool then [last.cidr] else []
  }

  /** The first occurrences of the elements, in order. */
  function FirstOccurrences(s: seq<string>): (r: seq<string>)
    ensures forall c :: c in r <==> c in s
    ensures forall i, j :: 0 <= i < j < |r| ==> r[i] != r[j]
  {
    if s == [] then []
    else
      var front := FirstOccurrences(s[..|s| - 1]);
      if s[|s| - 1] in front then front else front + [s[|s| - 1]]
  }

  function PoolNames(places: seq<Place>): set<string> {
    set i | 0 <= i < |places| :: places[i].pool
  }

  function PoolFrom(places: seq<Place>, n: string): AddressPool {
    NewBGPAddressPool(n).(cidrs := FirstOccurrences(CidrsFor(places, n)))
  }

  function PoolsOf(places: seq<Place>): map<string, AddressPool> {
    map n | n in PoolNames(places) :: PoolFrom(places, n)
  }

  /** An address outside the networks is only logged; without a text, logging it panics. */
  predicate Unloggable(ip: IPResponse, nws: set<string>) {
    ip.networkid.Some? && ip.networkid.value !in nws && ip.ipaddress.None?
  }

  predicate Panics(ips: seq<IPResponse>, nws: set<string>) {
    exists i :: 0 <= i < |ips| && Unloggable(ips[i], nws) && forall j :: 0 <= j < i ==> ips[j].networkid.Some?
  }

  /** No network is set, or an address in the networks has no text or one that does not parse. */
  predicate Bad(ip: IPResponse, nws: set<string>, canon: Canonical) {
    ip.networkid.None? || (InNetworks(ip, nws) && Cidr(ip, canon).None?)
  }

  predicate Fails(ips: seq<IPResponse>, nws: set<string>, canon: Canonical) {
    exists i :: 0 <= i < |ips| && Bad(ips[i], nws, canon)
  }

  // ---- the code ----

  datatype Outcome<+T> = Computed(value: T) | Failed | Panicked

  method AppendIP(pool: AddressPool, ip: IPResponse, canon: Canonical) returns (r: Result<AddressPool>)
    ensures r.Ok? <==> Cidr(ip, canon).Some?
    ensures r.Ok? ==> var c := Cidr(ip, canon).value;
                      r.value == if c in pool.cidrs then pool else pool.(cidrs := pool.cidrs + [c])
  {
    if ip.ipaddress.None? { return Err; }
    var parsed := canon(ip.ipaddress.value);
    if parsed.None? { return Err; }
    var cidr := parsed.value;
    for i := 0 to |pool.cidrs|
      invariant cidr !in pool.cidrs[..i]
    {
      if pool.cidrs[i] == cidr { return Ok(pool); }
    }
    return Ok(pool.(cidrs := pool.cidrs + [cidr]));
  }

  /** The pools with one more CIDR at the end of a pool, if the pool does not have it yet. */
  function AddedTo(pools: map<string, AddressPool>, n: string, c: string): map<string, AddressPool> {
    var pool := if n in pools then pools[n] else NewBGPAddressPool(n);
    pools[n := if c in pool.cidrs then pool else pool.(cidrs := pool.cidrs + [c])]
  }

  class AddressPools {
    var pools: map<string, AddressPool>

    constructor ()
      ensures pools == map[]
    {
      pools := map[];
    }

    /** A failure may leave an empty pool behind. */
    method AddPoolIP(poolName: string, ip: IPResponse, canon: Canonical) returns (ok: bool)
      modifies this
      ensures ok <==> Cidr(ip, canon).Some?
      ensures ok ==> pools == AddedTo(old(pools), poolName, Cidr(ip, canon).value)
      ensures !ok ==> pools == if poolName in old(pools) then old(pools)
                               else old(pools)[poolName := NewBGPAddressPool(poolName)]
    {
      if poolName !in pools {
        pools := pools[poolName := NewBGPAddressPool(poolName)];
      }
      var appended := AppendIP(pools[poolName], ip, canon);
      if appended.Err? { return false; }
      pools := pools[poolName := appended.value];
      return true;
    }
  }

  lemma FirstOccurrencesSnoc(s: seq<string>, c: string)
    ensures FirstOccurrences(s + [c])
            == if c in FirstOccurrences(s) then FirstOccurrences(s) else FirstOccurrences(s) + [c]
  {
    assert (s + [c])[..|s|] == s;
  }

  lemma {:induction false} UnnamedIsEmpty(places: seq<Place>, n: string)
    requires forall i :: 0 <= i < |places| ==> places[i].pool != n
    ensures CidrsFor(places, n) == []
  {
    if places != [] {
      UnnamedIsEmpty(places[..|places| - 1], n);
    }
  }

  lemma PoolSnoc(places: seq<Place>, p: Place, n: string)
    ensures PoolFrom(places + [p], n) ==
            var pool := PoolFrom(places, n);
            if p.pool == n && p.cidr !in pool.cidrs then pool.(cidrs := pool.cidrs + [p.cidr]) else pool
  {
    assert (places + [p])[..|places|] == places;
    FirstOccurrencesSnoc(CidrsFor(places, n), p.cidr);
    assert CidrsFor(places, n) + [] == CidrsFor(places, n);
  }

  lemma NamesSnoc(places: seq<Place>, p: Place)
    ensures PoolNames(places + [p]) == PoolNames(places) + {p.pool}
  {
    var longer := places + [p];
    assert longer[|places|] == p && forall i :: 0 <= i < |places| ==> longer[i] == places[i];
  }

  /** One more place adds to one pool. */
  lemma PoolsSnoc(places: seq<Place>, p: Place)
    ensures PoolsOf(places + [p]) == AddedTo(PoolsOf(places), p.pool, p.cidr)
  {
    var before, after := PoolsOf(places), PoolsOf(places + [p]);
    var added := AddedTo(before, p.pool, p.cidr);
    NamesSnoc(places, p);
    assert after.Keys == added.Keys;
    forall n | n in after ensures after[n] == added[n] {
      PoolSnoc(places, p, n);
      if n == p.pool {
        KnownOrEmpty(places, n);
      }
    }
  }

  lemma KnownOrEmpty(places: seq<Place>, n: string)
    ensures (if n in PoolsOf(places) then PoolsOf(places)[n] else NewBGPAddressPool(n)) == PoolFrom(places, n)
  {
    if n !in PoolNames(places) {
      UnnamedIsEmpty(places, n);
    }
  }

  lemma PlacesSnoc(ips: seq<IPResponse>, i: nat, nws: set<string>, canon: Canonical)
    requires i < |ips|
    ensures Places(ips[..i + 1], nws, canon) ==
            if InNetworks(ips[i], nws) && Cidr(ips[i], canon).Some?
            then Places(ips[..i], nws, canon) + [Place(PoolOf(ips[i]), Cidr(ips[i], canon).value)]
            else Places(ips[..i], nws, canon)
  {
    assert ips[..i + 1][..i] == ips[..i];
    assert Places(ips[..i], nws, canon) + [] == Places(ips[..i], nws, canon);
  }

  /** The loop gets past the first n addresses. */
  predicate GetsPast(ips: seq<IPResponse>, n: nat, nws: set<string>)
    requires n <= |ips|
  {
    forall j :: 0 <= j < n ==> ips[j].networkid.Some? && !Unloggable(ips[j], nws)
  }

  lemma WhereItEnds(ips: seq<IPResponse>, n: nat, nws: set<string>, canon: Canonical)
    requires n <= |ips| && GetsPast(ips, n, nws)
    ensures n < |ips| && Unloggable(ips[n], nws) ==> Panics(ips, nws)
    ensures n < |ips| && ips[n].networkid.None? ==> !Panics(ips, nws) && Fails(ips, nws, canon)
    ensures n == |ips| ==> !Panics(ips, nws)
  {
    if n < |ips| && ips[n].networkid.None? {
      assert Bad(ips[n], nws, canon);
    }
  }

  lemma FailsSnoc(ips: seq<IPResponse>, n: nat, nws: set<string>, canon: Canonical)
    requires n < |ips|
    ensures Fails(ips[..n + 1], nws, canon) <==> Fails(ips[..n], nws, canon) || Bad(ips[n], nws, canon)
  {
    if Fails(ips[..n], nws, canon) {
      var i :| 0 <= i < n && Bad(ips[..n][i], nws, canon);
      assert Bad(ips[..n + 1][i], nws, canon);
    } else if Bad(ips[n], nws, canon) {
      assert Bad(ips[..n + 1][n], nws, canon);
    } else {
      assert forall i :: 0 <= i < n ==> ips[..n + 1][i] == ips[..n][i];
    }
  }

  /** Computes the pools, and fails or panics exactly on the inputs that make it. */
  method ComputeAddressPools(ips: seq<IPResponse>, nws: set<string>, canon: Canonical)
    returns (r: Outcome<map<string, AddressPool>>)
    ensures r.Panicked? <==> Panics(ips, nws)
    ensures r.Failed? <==> !Panics(ips, nws) && Fails(ips, nws, canon)
    ensures r.Computed? ==>
              forall i :: 0 <= i < |ips| ==>
                && ips[i].networkid.Some?
                && (if ips[i].networkid.value in nws then ips[i].ipaddress.Some? && canon(ips[i].ipaddress.value).Some?
                    else ips[i].ipaddress.Some?)
    ensures r.Failed? ==>
              exists i :: 0 <= i < |ips|
                && (ips[i].networkid.None?
                    || (ips[i].networkid.value in nws
                        && (ips[i].ipaddress.None? || canon(ips[i].ipaddress.value).None?)))
    ensures r.Computed? ==> r.value == PoolsOf(Places(ips, nws, canon))
  {
    var as' := new AddressPools();
    var errors := 0;
    for i := 0 to |ips|
      invariant GetsPast(ips, i, nws)
      invariant errors >= 0 && (errors > 0 <==> Fails(ips[..i], nws, canon))
      invariant errors == 0 ==> as'.pools == PoolsOf(Places(ips[..i], nws, canon))
    {
      var ip := ips[i];
      WhereItEnds(ips, i, nws, canon);
      PlacesSnoc(ips, i, nws, canon);
      FailsSnoc(ips, i, nws, canon);
      if ip.networkid.None? { return Failed; }
      if ip.networkid.value !in nws {
        if ip.ipaddress.None? { return Panicked; }
        continue;
      }
      var ok := as'.AddPoolIP(PoolOf(ip), ip, canon);
      if ok {
        PoolsSnoc(Places(ips[..i], nws, canon), Place(PoolOf(ip), Cidr(ip, canon).value));
      } else {
        errors := errors + 1;
      }
    }
    WhereItEnds(ips, |ips|, nws, canon);
    assert ips[..|ips|] == ips;
    return if errors > 0 then Failed else Computed(as'.pools);
  }

  // ---- properties of the pools ----

  function IndexIn(s: seq<string>, c: string): nat
    requires c in s
  {
    if s[0] == c then 0 else 1 + IndexIn(s[1..], c)
  }

  lemma {:induction false} IndexInPrefix(s: seq<string>, last: string, c: string)
    requires c in s
    ensures IndexIn(s + [last], c) == IndexIn(s, c) < |s|
  {
    if s[0] != c {
      assert (s + [last])[1..] == s[1..] + [last];
      IndexInPrefix(s[1..], last, c);
    }
  }

  lemma {:induction false} IndexOfNew(s: seq<string>, last: string)
    requires last !in s
    ensures IndexIn(s + [last], last) == |s|
  {
    if s != [] {
      assert (s + [last])[1..] == s[1..] + [last];
      IndexOfNew(s[1..], last);
    }
  }

  /** The CIDRs of a pool stand in the order in which they first occur. */
  lemma {:induction false} FirstOccurrencesOrdered(s: seq<string>, i: nat, j: nat)
    requires i < j < |FirstOccurrences(s)|
    ensures IndexIn(s, FirstOccurrences(s)[i]) < IndexIn(s, FirstOccurrences(s)[j])
  {
    var front, last := s[..|s| - 1], s[|s| - 1];
    var r := FirstOccurrences(front);
    assert s == front + [last];
    IndexInPrefix(front, last, r[i]);
    if j < |r| {
      FirstOccurrencesOrdered(front, i, j);
      IndexInPrefix(front, last, r[j]);
    } else {
      IndexOfNew(front, last);
    }
  }

  lemma {:induction false} CidrsForExact(places: seq<Place>, n: string, c: string)
    ensures c in CidrsFor(places, n) <==> Place(n, c) in places
  {
    if places != [] {
      var front, last := places[..|places| - 1], places[|places| - 1];
      CidrsForExact(front, n, c);
      assert places == front + [last];
    }
  }

  /** A pool lists exactly the CIDRs placed in it. */
  lemma PoolLists(places: seq<Place>, n: string, c: string)
    ensures n in PoolsOf(places) && c in PoolsOf(places)[n].cidrs <==> Place(n, c) in places
  {
    CidrsForExact(places, n, c);
    if Place(n, c) in places {
      var i :| 0 <= i < |places| && places[i] == Place(n, c);
      assert places[i].pool == n;
    }
  }

  lemma {:induction false} PlacesExact(ips: seq<IPResponse>, nws: set<string>, canon: Canonical, p: Place)
    ensures p in Places(ips, nws, canon)
            <==> exists ip :: ip in ips && InNetworks(ip, nws) && Cidr(ip, canon) == Some(p.cidr)
                    && PoolOf(ip) == p.pool
  {
    if ips != [] {
      var front, last := ips[..|ips| - 1], ips[|ips| - 1];
      PlacesExact(front, nws, canon, p);
      assert ips == front + [last];
      if p in Places(front, nws, canon) {
        var ip :| ip in front && InNetworks(ip, nws) && Cidr(ip, canon) == Some(p.cidr) && PoolOf(ip) == p.pool;
        assert ip in ips;
      } else if p in Places(ips, nws, canon) {
        assert last in ips && InNetworks(last, nws) && Cidr(last, canon) == Some(p.cidr) && PoolOf(last) == p.pool;
      }
    }
  }

  /** The pools at the level of sets: a key is the pool's name, no pool is empty, none lists a
      CIDR twice, and it lists exactly the CIDRs of the addresses in the networks that are
      mapped to its name. */
  lemma PoolsExact(ips: seq<IPResponse>, nws: set<string>, canon: Canonical, n: string, c: string)
    ensures var pools := PoolsOf(Places(ips, nws, canon));
            && (n in pools && c in pools[n].cidrs
                <==> exists ip :: ip in ips && InNetworks(ip, nws) && Cidr(ip, canon) == Some(c) && PoolOf(ip) == n)
            && (n in pools ==>
                  && pools[n].name == n && pools[n].protocol == "bgp" && pools[n].autoAssign == Some(false)
                  && pools[n].cidrs != []
                  && forall i, j :: 0 <= i < j < |pools[n].cidrs| ==> pools[n].cidrs[i] != pools[n].cidrs[j])
  {
    var places := Places(ips, nws, canon);
    PlacesExact(ips, nws, canon, Place(n, c));
    PoolLists(places, n, c);
    if n in PoolsOf(places) {
      var i :| 0 <= i < |places| && places[i].pool == n;
      PoolLists(places, n, places[i].cidr);
    }
  }

  /** Permuting the addresses changes neither the failure nor any pool's set of CIDRs. */
  lemma PoolsIgnoreOrder(ips: seq<IPResponse>, ips': seq<IPResponse>, nws: set<string>, canon: Canonical, n: string,
                         c: string)
    requires multiset(ips) == multiset(ips')
    ensures Fails(ips, nws, canon) <==> Fails(ips', nws, canon)
    ensures var pools, pools' := PoolsOf(Places(ips, nws, canon)), PoolsOf(Places(ips', nws, canon));
            n in pools && c in pools[n].cidrs <==> n in pools' && c in pools'[n].cidrs
  {
    assert forall ip :: ip in ips <==> ip in multiset(ips);
    assert forall ip :: ip in ips' <==> ip in multiset(ips');
    PoolsExact(ips, nws, canon, n, c);
    PoolsExact(ips', nws, canon, n, c);
    FailsByMembers(ips, nws, canon);
    FailsByMembers(ips', nws, canon);
  }

  lemma FailsByMembers(ips: seq<IPResponse>, nws: set<string>, canon: Canonical)
    ensures Fails(ips, nws, canon) <==> exists ip :: ip in ips && Bad(ip, nws, canon)
  {
    if ip :| ip in ips && Bad(ip, nws, canon) {
      var i :| 0 <= i < |ips| && ips[i] == ip;
      assert Bad(ips[i], nws, canon);
    }
  }

  // ---- conservation ----

  function CountInNetworks(ips: seq<IPResponse>, nws: set<string>): nat {
    if ips == [] then 0
    else CountInNetworks(ips[..|ips| - 1], nws) + if InNetworks(ips[|ips| - 1], nws) then 1 else 0
  }

  lemma {:induction false} NothingIsDropped(ips: seq<IPResponse>, nws: set<string>, canon: Canonical)
    requires !Fails(ips, nws, canon)
    ensures |Places(ips, nws, canon)| == CountInNetworks(ips, nws)
  {
    if ips != [] {
      var front := ips[..|ips| - 1];
      assert forall i :: 0 <= i < |front| ==> front[i] == ips[i];
      NothingIsDropped(front, nws, canon);
      assert !Bad(ips[|ips| - 1], nws, canon);
    }
  }

  predicate DistinctCidrs(places: seq<Place>) {
    forall i, j :: 0 <= i < j < |places| ==> places[i].cidr != places[j].cidr
  }

  /** The sizes of the pools of the given names, added up. */
  function SumOfSizes(names: seq<string>, places: seq<Place>): nat {
    if names == [] then 0
    else SumOfSizes(names[..|names| - 1], places) + |FirstOccurrences(CidrsFor(places, names[|names| - 1]))|
  }

  lemma SizeSnoc(places: seq<Place>, p: Place, n: string)
    requires DistinctCidrs(places + [p])
    ensures |FirstOccurrences(CidrsFor(places + [p], n))|
            == |FirstOccurrences(CidrsFor(places, n))| + if p.pool == n then 1 else 0
  {
    NewCidr(places, p, n);
    PoolSnoc(places, p, n);
  }

  lemma NewCidr(places: seq<Place>, p: Place, n: string)
    requires DistinctCidrs(places + [p])
    ensures p.cidr !in CidrsFor(places, n)
  {
    var longer := places + [p];
    CidrsForExact(places, n, p.cidr);
    forall i | 0 <= i < |places| ensures places[i] != Place(n, p.cidr) {
      assert longer[i].cidr != longer[|places|].cidr;
    }
  }

  lemma {:induction false} SumSnoc(names: seq<string>, places: seq<Place>, p: Place)
    requires forall i, j :: 0 <= i < j < |names| ==> names[i] != names[j]
    requires DistinctCidrs(places + [p])
    ensures SumOfSizes(names, places + [p]) == SumOfSizes(names, places) + if p.pool in names then 1 else 0
  {
    if names != [] {
      var n, front := names[|names| - 1], names[..|names| - 1];
      assert names == front + [n];
      SumSnoc(front, places, p);
      SizeSnoc(places, p, n);
    }
  }

  lemma {:induction false} NoSizes(names: seq<string>)
    ensures SumOfSizes(names, []) == 0
  {
    if names != [] {
      NoSizes(names[..|names| - 1]);
    }
  }

  lemma {:induction false} SumIsLength(names: seq<string>, places: seq<Place>)
    requires forall i, j :: 0 <= i < j < |names| ==> names[i] != names[j]
    requires forall i :: 0 <= i < |places| ==> places[i].pool in names
    requires DistinctCidrs(places)
    ensures SumOfSizes(names, places) == |places|
  {
    if places == [] {
      NoSizes(names);
    } else {
      var front, last := places[..|places| - 1], places[|places| - 1];
      assert places == front + [last];
      SumIsLength(names, front);
      SumSnoc(names, front, last);
    }
  }

  /** Conservation: if no two addresses in the networks have the same canonical form, the sizes
      of the pools, in any enumeration, add up to the number of these addresses. */
  lemma SizesAddUp(names: seq<string>, ips: seq<IPResponse>, nws: set<string>, canon: Canonical)
    requires !Fails(ips, nws, canon) && DistinctCidrs(Places(ips, nws, canon))
    requires IsEnumeration(names, PoolsOf(Places(ips, nws, canon)).Keys)
    ensures SumOfSizes(names, Places(ips, nws, canon)) == CountInNetworks(ips, nws)
  {
    NothingIsDropped(ips, nws, canon);
    SumIsLength(names, Places(ips, nws, canon));
  }

  /** Under the same condition each of these addresses is in exactly one pool. */
  lemma InExactlyOnePool(ips: seq<IPResponse>, nws: set<string>, canon: Canonical, ip: IPResponse, n: string)
    requires DistinctCidrs(Places(ips, nws, canon))
    requires ip in ips && InNetworks(ip, nws) && Cidr(ip, canon).Some?
    ensures var pools := PoolsOf(Places(ips, nws, canon));
            n in pools && Cidr(ip, canon).value in pools[n].cidrs <==> n == PoolOf(ip)
  {
    var places, own := Places(ips, nws, canon), Place(PoolOf(ip), Cidr(ip, canon).value);
    PlacesExact(ips, nws, canon, own);
    PlacedOnce(places, own, n);
  }

  lemma PlacedOnce(places: seq<Place>, own: Place, n: string)
    requires DistinctCidrs(places) && own in places
    ensures n in PoolsOf(places) && own.cidr in PoolsOf(places)[n].cidrs <==> n == own.pool
  {
    PoolLists(places, n, own.cidr);
    var i :| 0 <= i < |places| && places[i] == own;
    assert forall j :: 0 <= j < |places| && places[j].cidr == own.cidr ==> j == i;
  }
}
