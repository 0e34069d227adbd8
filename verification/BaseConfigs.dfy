/** The configuration that both load balancer back ends write (config/config.go), and the
    passes over its peers and pools that they share. */
module BaseConfigs {
  import opened Wrappers
  import opened Metal
  import opened Pools
  import opened Peers
  import opened Reconcile

  datatype BaseConfig = BaseConfig(peers: seq<Peer>, addressPools: map<string, AddressPool>)

  /** Pools are kept under their own names. */
  predicate KeyedByName(base: BaseConfig) {
    forall n :: n in base.addressPools ==> base.addressPools[n].name == n
  }

  /** No configuration is made if an address or a node is unusable. Addresses that all have a
      text, as listed ones do, never make it panic. */
  method NewBaseConfig(ips: seq<IPResponse>, nws: set<string>, nodes: seq<Node>, canon: Canonical)
    returns (r: Outcome<BaseConfig>)
    ensures r.Panicked? <==> Panics(ips, nws)
    ensures r.Panicked? ==> exists i :: 0 <= i < |ips| && ips[i].ipaddress.None?
    ensures r.Failed? <==>
              && !Panics(ips, nws)
              && (Fails(ips, nws, canon) || exists i :: 0 <= i < |nodes| && GetASNFromNodeLabels(nodes[i]).Err?)
    ensures r.Computed? ==>
              r.value == BaseConfig(PeersOf(nodes), PoolsOf(Places(ips, nws, canon))) && KeyedByName(r.value)
  {
    var pools := ComputeAddressPools(ips, nws, canon);
    match pools
    case Panicked => return Panicked;
    case Failed => return Failed;
    case Computed(addressPools) =>
      var peers := ComputePeers(nodes);
      return if peers.Ok? then Computed(BaseConfig(peers.value, addressPools)) else Failed;
  }

  // ---- iterating over the pools, each time in some order ----

  /** The entries of a map, each once, in any order. */
  ghost predicate ListsMap<Spec(!new)>(desired: seq<Named<Spec>>, m: map<string, Spec>) {
    && (forall i :: 0 <= i < |desired| ==> desired[i].name in m && m[desired[i].name] == desired[i].spec)
    && (forall i, j :: 0 <= i < j < |desired| ==> desired[i].name != desired[j].name)
    && (forall n :: n in m ==> Named(n, m[n]) in desired)
  }

  /** A list that has a map's entries, each once, asks for that map, in whatever order it is. */
  lemma ListedMapIsLatest<Spec(!new)>(desired: seq<Named<Spec>>, m: map<string, Spec>)
    requires ListsMap(desired, m)
    ensures Latest(desired) == m && Consistent(desired)
    ensures forall n :: Wanted(desired, n) <==> n in m
  {
    forall n ensures Wanted(desired, n) <==> n in m {
      if n in m {
        var i :| 0 <= i < |desired| && desired[i] == Named(n, m[n]);
        assert desired[i].name == n;
      }
    }
    LatestNames(desired);
    forall n | n in m ensures Latest(desired)[n] == m[n] {
      LatestIsLastEntry(desired, n);
    }
    assert Latest(desired).Keys == m.Keys;
  }

  function SpecsOf<Spec>(base: BaseConfig, spec: AddressPool -> Spec): map<string, Spec> {
    map n | n in base.addressPools :: spec(base.addressPools[n])
  }

  /** One iteration over the pools: the object of each, under the pool's name. */
  method PoolObjects<Spec(!new)>(base: BaseConfig, spec: AddressPool -> Spec) returns (desired: seq<Named<Spec>>)
    requires KeyedByName(base)
    ensures ListsMap(desired, SpecsOf(base, spec))
  {
    var names := Enumerate(base.addressPools.Keys);
    desired := [];
    for i := 0 to |names|
      invariant |desired| == i
      invariant forall j :: 0 <= j < i ==> desired[j] == Named(names[j], spec(base.addressPools[names[j]]))
    {
      var pool := base.addressPools[names[i]];
      desired := desired + [Named(pool.name, spec(pool))];
    }
    forall n | n in base.addressPools ensures Named(n, spec(base.addressPools[n])) in desired {
      var i :| 0 <= i < |names| && names[i] == n;
      assert desired[i] == Named(n, spec(base.addressPools[n]));
    }
  }

  /** `now` lies between `before` and `want`: every object has its old spec or the desired one,
      and no desired object that was there is missing. */
  ghost predicate BetweenMaps<Spec(!new)>(before: map<string, Spec>, now: map<string, Spec>, want: map<string, Spec>) {
    && (forall n :: n in now ==> (n in before && now[n] == before[n]) || (n in want && now[n] == want[n]))
    && (forall n :: n in before && n in want ==> n in now)
  }

  lemma BetweenInMaps<Spec(!new)>(before: map<string, Spec>, now: map<string, Spec>,
                                  order: seq<Named<Spec>>, want: map<string, Spec>)
    requires Between(before, now, order) && ListsMap(order, want)
    requires forall n :: n in want ==> Wanted(order, n)
    ensures BetweenMaps(before, now, want)
  {
    forall n | n in now ensures (n in before && now[n] == before[n]) || (n in want && now[n] == want[n]) {
      if Named(n, now[n]) in order {
        assert n in want && want[n] == now[n];
      }
    }
  }

  /** The same as `BetweenIsClosed`, for the objects of a map. */
  lemma {:induction false} BetweenMapsIsClosed<Spec(!new)>(states: seq<map<string, Spec>>, want: map<string, Spec>)
    requires states != []
    requires forall i :: 0 <= i < |states| - 1 ==> BetweenMaps(states[i], states[i + 1], want)
    ensures BetweenMaps(states[0], states[|states| - 1], want)
  {
    if |states| > 1 {
      var n := |states| - 2;
      BetweenMapsIsClosed(states[..n + 1], want);
      assert BetweenMaps(states[n], states[n + 1], want);
    }
  }

  /** The pass over the pool objects of a back end. */
  method WritePools<Spec(!new,==)>(c: Collection<Spec>, base: BaseConfig, spec: AddressPool -> Spec) returns (ok: bool)
    requires KeyedByName(base)
    modifies c
    ensures BetweenMaps(old(c.objects), c.objects, SpecsOf(base, spec))
    ensures ok ==> c.objects == SpecsOf(base, spec)
    ensures ok && old(c.objects) == SpecsOf(base, spec) ==> c.changes == old(c.changes)
    ensures c.failures == old(c.failures) + if ok then 0 else 1
  {
    ghost var before := c.objects;
    ghost var swept;
    var desired := PoolObjects(base, spec);
    ListedMapIsLatest(desired, SpecsOf(base, spec));
    ok, swept := Pass(c, desired);
    BetweenInMaps(before, c.objects, desired, SpecsOf(base, spec));
    if before == Latest(desired) {
      SecondPass(desired, swept);
    }
  }

  /** The pass over the objects of the peers. */
  method WritePeers<Spec(!new,==)>(c: Collection<Spec>, desired: seq<Named<Spec>>) returns (ok: bool)
    modifies c
    ensures Between(old(c.objects), c.objects, desired)
    ensures ok ==> c.objects == Latest(desired)
    ensures ok && old(c.objects) == Latest(desired) ==> c.changes == old(c.changes) + Upserts(Latest(desired), desired)
    ensures c.failures == old(c.failures) + if ok then 0 else 1
  {
    ghost var before := c.objects;
    ghost var swept;
    ok, swept := Pass(c, desired);
    if before == Latest(desired) {
      SecondPass(desired, swept);
    }
  }
}
