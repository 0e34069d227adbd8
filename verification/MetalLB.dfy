/** Writing the custom resources of MetalLB (config/metallb_config.go). */
module MetalLB {
  import opened Wrappers
  import opened Text
  import opened Reconcile
  import opened Pools
  import opened Peers
  import opened BaseConfigs

  datatype PeerSpec = PeerSpec(myASN: nat, asn: nat, address: string, nodeSelectors: seq<string>)

  datatype PoolSpec = PoolSpec(addresses: seq<string>, autoAssign: Option<bool>)

  datatype AdvertisementSpec = AdvertisementSpec(ipAddressPools: seq<string>)

  datatype Objects = Objects(peers: map<string, PeerSpec>, pools: map<string, PoolSpec>,
                             advertisements: map<string, AdvertisementSpec>)

  function PeerSpecOf(peer: Peer): PeerSpec {
    PeerSpec(peer.myASN, peer.asn, peer.address, [peer.hostname])
  }

  function PoolSpecOf(pool: AddressPool): PoolSpec {
    PoolSpec(pool.cidrs, pool.autoAssign)
  }

  function AdvertisementOf(pool: AddressPool): AdvertisementSpec {
    AdvertisementSpec([pool.name])
  }

  function DesiredPeers(base: BaseConfig): seq<Named<PeerSpec>> {
    PeerObjects(base.peers, PeerName, PeerSpecOf)
  }

  function DesiredPools(base: BaseConfig): map<string, PoolSpec> {
    SpecsOf(base, PoolSpecOf)
  }

  function DesiredAdvertisements(base: BaseConfig): map<string, AdvertisementSpec> {
    SpecsOf(base, AdvertisementOf)
  }

  /** What a complete write leaves behind. Without pools the advertisements are not touched. */
  function Final(base: BaseConfig, objects: Objects): Objects {
    Objects(Latest(DesiredPeers(base)), DesiredPools(base),
            if base.addressPools == map[] then objects.advertisements else DesiredAdvertisements(base))
  }

  /** What an interrupted write can leave: every object has its old spec or a desired one, no
      desired object that was there is missing, and advertisements are only touched with pools. */
  ghost predicate Interrupted(base: BaseConfig, before: Objects, now: Objects) {
    && Between(before.peers, now.peers, DesiredPeers(base))
    && BetweenMaps(before.pools, now.pools, DesiredPools(base))
    && (if base.addressPools == map[] then now.advertisements == before.advertisements
        else BetweenMaps(before.advertisements, now.advertisements, DesiredAdvertisements(base)))
  }

  /** The custom resources in the cluster, by kind. */
  class Client {
    const peers: Collection<PeerSpec>
    const pools: Collection<PoolSpec>
    const advertisements: Collection<AdvertisementSpec>

    ghost function Current(): Objects
      reads peers, pools, advertisements
    {
      Objects(peers.objects, pools.objects, advertisements.objects)
    }

    ghost function Failures(): nat
      reads peers, pools, advertisements
    {
      peers.failures + pools.failures + advertisements.failures
    }

    constructor (peers: Collection<PeerSpec>, pools: Collection<PoolSpec>,
                 advertisements: Collection<AdvertisementSpec>)
      ensures this.peers == peers && this.pools == pools && this.advertisements == advertisements
    {
      this.peers, this.pools, this.advertisements := peers, pools, advertisements;
    }
  }

  class Config {
    const base: BaseConfig
    const client: Client

    constructor (base: BaseConfig, client: Client)
      ensures this.base == base && this.client == client
    {
      this.base, this.client := base, client;
    }

    /** Drives the cluster to the configuration. From any objects, a write that gets through
        leaves exactly the final ones; one that stops at any call leaves an interrupted state. */
    method WriteCRs() returns (ok: bool)
      requires KeyedByName(base)
      modifies client.peers, client.pools, client.advertisements
      ensures Interrupted(base, old(client.Current()), client.Current())
      ensures ok ==> client.Current() == Final(base, old(client.Current()))
      // Where it stops, nothing of the later kinds has been touched.
      ensures client.peers.objects != Latest(DesiredPeers(base)) ==>
                client.pools.objects == old(client.pools.objects) && client.pools.changes == old(client.pools.changes)
      ensures client.pools.objects != DesiredPools(base) ==>
                && client.advertisements.objects == old(client.advertisements.objects)
                && client.advertisements.changes == old(client.advertisements.changes)
      // It gets through exactly if no call fails.
      ensures client.Failures() == old(client.Failures()) + if ok then 0 else 1
      // Over a final state it deletes and creates nothing, and updates nothing but peers.
      ensures ok && old(client.Current()) == Final(base, old(client.Current())) ==>
                && client.peers.changes
                   == old(client.peers.changes) + Upserts(Latest(DesiredPeers(base)), DesiredPeers(base))
                && client.pools.changes == old(client.pools.changes)
                && client.advertisements.changes == old(client.advertisements.changes)
    {
      ok := WritePeers(client.peers, DesiredPeers(base));
      if !ok { return; }
      ok := WritePools(client.pools, base, PoolSpecOf);
      if !ok { return; }
      ok := WriteAdvertisements();
    }

    /** For every pool: delete all advertisements without a pool, then write the pool's own. */
    method WriteAdvertisements() returns (ok: bool)
      requires KeyedByName(base)
      modifies client.advertisements
      ensures base.addressPools == map[] ==> ok && client.advertisements.objects == old(client.advertisements.objects)
      ensures BetweenMaps(old(client.advertisements.objects), client.advertisements.objects,
                          DesiredAdvertisements(base))
      ensures ok && base.addressPools != map[] ==> client.advertisements.objects == DesiredAdvertisements(base)
      ensures base.addressPools == map[] || old(client.advertisements.objects) == DesiredAdvertisements(base) ==>
                client.advertisements.changes == old(client.advertisements.changes)
      ensures client.advertisements.failures == old(client.advertisements.failures) + if ok then 0 else 1
    {
      ghost var before, want := client.advertisements.objects, DesiredAdvertisements(base);
      var desired := PoolObjects(base, AdvertisementOf);
      for i := 0 to |desired|
        invariant BetweenMaps(before, client.advertisements.objects, want)
        invariant i > 0 ==> client.advertisements.objects.Keys <= want.Keys
        invariant client.advertisements.failures == old(client.advertisements.failures)
        invariant forall j :: 0 <= j < i ==> Present(client.advertisements.objects, desired[j])
        invariant i == 0 || before == want ==>
                    client.advertisements.objects == before
                            && client.advertisements.changes == old(client.advertisements.changes)
      {
        ghost var middle := client.advertisements.objects;
        ok := WriteAdvertisement(desired[i]);
        StillPresent(before, middle, client.advertisements.objects, desired, want, i);
        if !ok { return; }
      }
      ok := true;
      AllPresent(client.advertisements.objects, desired, want);
      assert want == map[] <==> base.addressPools == map[] by { assert want.Keys == base.addressPools.Keys; }
    }

    method WriteAdvertisement(own: Named<AdvertisementSpec>) returns (ok: bool)
      requires KeyedByName(base) && Present(DesiredAdvertisements(base), own)
      modifies client.advertisements
      ensures BetweenMaps(old(client.advertisements.objects), client.advertisements.objects,
                          DesiredAdvertisements(base))
      ensures ok ==> client.advertisements.objects.Keys <= DesiredAdvertisements(base).Keys
      ensures ok ==> Present(client.advertisements.objects, own)
      ensures old(client.advertisements.objects) == DesiredAdvertisements(base) ==>
                && client.advertisements.objects == old(client.advertisements.objects)
                && client.advertisements.changes == old(client.advertisements.changes)
      ensures client.advertisements.failures == old(client.advertisements.failures) + if ok then 0 else 1
    {
      ghost var before := client.advertisements.objects;
      ghost var swept;
      var order := PoolObjects(base, AdvertisementOf);
      ListedMapIsLatest(order, DesiredAdvertisements(base));
      ok, swept := Sweep(client.advertisements, order);
      BetweenInMaps(before, client.advertisements.objects, order, DesiredAdvertisements(base));
      if before == DesiredAdvertisements(base) {
        NothingSwept(swept, before, order);
      }
      if !ok { return; }
      ok := client.advertisements.CreateOrUpdate(own.name, own.spec);
    }
  }

  predicate Present<Spec(==)>(objects: map<string, Spec>, own: Named<Spec>) {
    own.name in objects && objects[own.name] == own.spec
  }

  lemma AllPresent<Spec(!new)>(objects: map<string, Spec>, desired: seq<Named<Spec>>, want: map<string, Spec>)
    requires ListsMap(desired, want)
    requires forall j :: 0 <= j < |desired| ==> Present(objects, desired[j])
    requires desired != [] ==> objects.Keys <= want.Keys
    ensures want == map[] <==> desired == []
    ensures desired != [] ==> objects == want
  {
    forall n | n in want ensures n in objects && objects[n] == want[n] {
      var j :| 0 <= j < |desired| && desired[j] == Named(n, want[n]);
      assert Present(objects, desired[j]);
    }
    if desired == [] {
      assert want.Keys == {};
    } else {
      assert desired[0].name in want;
    }
  }

  /** Staying between is transitive, and keeps what already has the desired spec. */
  lemma StillPresent<Spec(!new)>(before: map<string, Spec>, middle: map<string, Spec>, now: map<string, Spec>,
                                 desired: seq<Named<Spec>>, want: map<string, Spec>, n: nat)
    requires BetweenMaps(before, middle, want) && BetweenMaps(middle, now, want)
    requires ListsMap(desired, want) && n <= |desired|
    requires forall j :: 0 <= j < n ==> Present(middle, desired[j])
    ensures BetweenMaps(before, now, want)
    ensures forall j :: 0 <= j < n ==> Present(now, desired[j])
  {
  }

  lemma NothingSwept<Spec(!new)>(swept: seq<Change<Spec>>, before: map<string, Spec>, order: seq<Named<Spec>>)
    requires OnlyUnwanted(swept, before, order)
    requires forall n :: n in before ==> Wanted(order, n)
    ensures swept == []
  {
    if swept != [] {
      FirstIsIn(swept);
      assert false;
    }
  }

  // ---- consequences ----

  lemma {:induction false} StillUntouched(base: BaseConfig, states: seq<Objects>)
    requires states != [] && base.addressPools == map[]
    requires forall i :: 0 <= i < |states| - 1 ==> Interrupted(base, states[i], states[i + 1])
    ensures states[|states| - 1].advertisements == states[0].advertisements
  {
    if |states| > 1 {
      var n := |states| - 2;
      StillUntouched(base, states[..n + 1]);
      assert Interrupted(base, states[n], states[n + 1]);
    }
  }

  lemma InterruptedChain(base: BaseConfig, states: seq<Objects>)
    requires states != []
    requires forall i :: 0 <= i < |states| - 1 ==> Interrupted(base, states[i], states[i + 1])
    ensures Interrupted(base, states[0], states[|states| - 1])
  {
    BetweenIsClosed(seq(|states|, i requires 0 <= i < |states| => states[i].peers), DesiredPeers(base));
    BetweenMapsIsClosed(seq(|states|, i requires 0 <= i < |states| => states[i].pools), DesiredPools(base));
    if base.addressPools == map[] {
      StillUntouched(base, states);
    } else {
      BetweenMapsIsClosed(seq(|states|, i requires 0 <= i < |states| => states[i].advertisements),
                          DesiredAdvertisements(base));
    }
  }

  /** Crash and resume: after any number of writes of the same configuration that stopped
      anywhere, a complete write ends in the same state as if none had been interrupted; and at
      every stop no desired object that existed at the start is missing. */
  lemma CrashResume(base: BaseConfig, states: seq<Objects>)
    requires states != []
    requires forall i :: 0 <= i < |states| - 1 ==> Interrupted(base, states[i], states[i + 1])
    ensures var start, stop := states[0], states[|states| - 1];
            && Final(base, stop) == Final(base, start)
            && (forall n :: n in start.peers && Wanted(DesiredPeers(base), n) ==> n in stop.peers)
            && (forall n :: n in start.pools && n in base.addressPools ==> n in stop.pools)
            && (forall n :: n in start.advertisements && n in base.addressPools ==> n in stop.advertisements)
  {
    InterruptedChain(base, states);
  }

  lemma PeerNamesTellASNsApart()
    ensures forall a: nat, b: nat :: PeerName(a) == PeerName(b) ==> a == b
  {
    forall a: nat, b: nat | PeerName(a) == PeerName(b) ensures a == b {
      PeerNameInjective(a, b);
    }
  }

  /** One advertisement for each pool if there is one, and else what was there before. */
  lemma FinalAdvertisements(base: BaseConfig, before: Objects)
    ensures var final := Final(base, before);
            && (final.pools == map[] ==> final.advertisements == before.advertisements)
            && (final.pools != map[] ==>
                  && final.advertisements.Keys == final.pools.Keys
                  && forall n :: n in final.pools ==>
                       final.advertisements[n].ipAddressPools == [base.addressPools[n].name])
  {
    var final := Final(base, before);
    assert final.pools.Keys == base.addressPools.Keys;
    if base.addressPools == map[] {
      assert final.pools.Keys == {};
    } else {
      assert final.advertisements.Keys == base.addressPools.Keys;
      assert base.addressPools.Keys != {};
    }
  }

  /** The final state in terms of the configuration: one peer per distinct ASN with the spec of
      the last peer that has it, one pool object per pool, and one advertisement per pool that
      refers to just this pool. */
  lemma FinalExact(base: BaseConfig, objects: Objects, asn: nat, n: string)
    requires KeyedByName(base)
    ensures var final := Final(base, objects);
            var name := "peer-" + Itoa(asn);
            && (name in final.peers <==> exists i :: 0 <= i < |base.peers| && base.peers[i].asn == asn)
            && (name in final.peers ==>
                  exists i :: 0 <= i < |base.peers| && base.peers[i].asn == asn
                              && final.peers[name].myASN == base.peers[i].myASN && final.peers[name].asn == asn
                              && final.peers[name].address == base.peers[i].address
                              && final.peers[name].nodeSelectors == [base.peers[i].hostname]
                              && forall j :: i < j < |base.peers| ==> base.peers[j].asn != asn)
            && (n in final.peers ==> exists i :: 0 <= i < |base.peers| && n == "peer-" + Itoa(base.peers[i].asn))
            && (n in final.pools <==> n in base.addressPools)
            && (n in final.pools ==>
                  && final.pools[n].addresses == base.addressPools[n].cidrs
                  && final.pools[n].autoAssign == base.addressPools[n].autoAssign)
            && (base.addressPools == map[] ==> final.advertisements == objects.advertisements)
            && (base.addressPools != map[] ==>
                  && (n in final.advertisements <==> n in base.addressPools)
                  && (n in final.advertisements ==> final.advertisements[n].ipAddressPools == [n]))
  {
    PeerNamesTellASNsApart();
    OneObjectPerASN(base.peers, PeerName, PeerSpecOf, asn, n);
  }

  /** What the object of a node says, field by field. */
  ghost predicate IsSpecFor(spec: PeerSpec, node: Node, asn: nat) {
    && spec.myASN == asn && spec.asn == asn && spec.nodeSelectors == [node.name]
    && exists i: nat :: FirstAt(node.addresses, i) && node.addresses[i].address == spec.address
  }

  /** Exactly one object for each ASN of a node with an internal address, for the last such node. */
  ghost predicate OnePerNodeASN(objects: map<string, PeerSpec>, nodes: seq<Node>) {
    && (forall n :: n in objects ==> exists i: nat :: IsObjectOf(n, objects[n], nodes, i))
    && (forall i :: 0 <= i < |nodes| && HasInternal(nodes[i]) ==>
          exists asn: nat :: HasASN(nodes[i], asn) && "peer-" + Itoa(asn) in objects)
  }

  ghost predicate IsObjectOf(n: string, spec: PeerSpec, nodes: seq<Node>, i: nat) {
    exists asn: nat :: LastWith(nodes, i, asn) && n == "peer-" + Itoa(asn) && IsSpecFor(spec, nodes[i], asn)
  }

  lemma FinalPeersOfNodes(base: BaseConfig, nodes: seq<Node>, idx: seq<nat>)
    requires Corresponds(base.peers, nodes, idx)
    ensures OnePerNodeASN(Latest(DesiredPeers(base)), nodes)
  {
    PeerNamesTellASNsApart();
    var objects := Latest(DesiredPeers(base));
    forall n | n in objects ensures exists i: nat :: IsObjectOf(n, objects[n], nodes, i) {
      ObjectsOfNodes(nodes, base.peers, idx, PeerName, PeerSpecOf, n);
      var k :| 0 <= k < |base.peers| && n == PeerName(base.peers[k].asn) && objects[n] == PeerSpecOf(base.peers[k])
               && LastWith(nodes, idx[k], base.peers[k].asn);
      assert IsPeerOf(base.peers[k], nodes[idx[k]]);
      assert IsSpecFor(objects[n], nodes[idx[k]], base.peers[k].asn);
      assert IsObjectOf(n, objects[n], nodes, idx[k]);
    }
    forall i | 0 <= i < |nodes| && HasInternal(nodes[i])
      ensures exists asn: nat :: HasASN(nodes[i], asn) && "peer-" + Itoa(asn) in objects
    {
      EveryNodeHasObject(nodes, base.peers, idx, PeerName, PeerSpecOf, i);
      var asn: nat :| HasASN(nodes[i], asn) && PeerName(asn) in objects;
      assert "peer-" + Itoa(asn) in objects;
    }
  }

  /** Peers with the same ASN are the same in all that is written. */
  predicate AgreeingPeers(peers: seq<Peer>) {
    forall i, j :: 0 <= i < |peers| && 0 <= j < |peers| && peers[i].asn == peers[j].asn ==>
      PeerSpecOf(peers[i]) == PeerSpecOf(peers[j])
  }

  /** Running again over the final state: nothing but peers is ever updated, and not even those
      exactly if all peers with the same ASN agree. */
  lemma SecondRun(base: BaseConfig)
    ensures forall c :: c in Upserts(Latest(DesiredPeers(base)), DesiredPeers(base)) ==> c.Updated?
    ensures Upserts(Latest(DesiredPeers(base)), DesiredPeers(base)) == [] <==> AgreeingPeers(base.peers)
  {
    var desired := DesiredPeers(base);
    SecondPass(desired, []);
    forall i, j | 0 <= i < |base.peers| && 0 <= j < |base.peers|
      ensures desired[i].name == desired[j].name <==> base.peers[i].asn == base.peers[j].asn
    {
      PeerNameInjective(base.peers[i].asn, base.peers[j].asn);
    }
    if AgreeingPeers(base.peers) {
      assert Consistent(desired);
    } else {
      var i, j :| 0 <= i < |base.peers| && 0 <= j < |base.peers| && base.peers[i].asn == base.peers[j].asn
                  && PeerSpecOf(base.peers[i]) != PeerSpecOf(base.peers[j]);
      assert desired[i].name == desired[j].name && desired[i] != desired[j];
    }
  }

  /** Two nodes with one ASN: every further write updates their object twice. */
  lemma SharedASNIsRewritten(first: Peer, second: Peer, pools: map<string, AddressPool>)
    requires first.asn == second.asn && PeerSpecOf(first) != PeerSpecOf(second)
    ensures var desired, name := DesiredPeers(BaseConfig([first, second], pools)), PeerName(first.asn);
            Upserts(Latest(desired), desired)
            == [Updated(name, PeerSpecOf(first)), Updated(name, PeerSpecOf(second))]
  {
    var name := PeerName(first.asn);
    var one, two := Named(name, PeerSpecOf(first)), Named(name, PeerSpecOf(second));
    var desired := DesiredPeers(BaseConfig([first, second], pools));
    assert desired == [one, two] && [one, two][..1] == [one] && [one][..0] == [];
    assert Latest([one]) == map[name := one.spec];
    assert Latest([one, two]) == map[name := two.spec];
    assert Upserts(Latest(desired), [one]) == [Updated(name, one.spec)];
  }
}
