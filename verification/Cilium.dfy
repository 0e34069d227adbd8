/** Writing the custom resources of Cilium and the node annotations it needs
    (config/cilium_config.go). */
module Cilium {
  import opened Wrappers
  import opened Text
  import opened Reconcile
  import opened Pools
  import opened Peers
  import opened BaseConfigs
  import opened Optimistic

  datatype PolicySpec = PolicySpec(nodeSelector: string, localASN: int, peerASN: int)

  datatype Block = Block(cidr: string)

  function PolicySpecOf(peer: Peer): PolicySpec {
    PolicySpec(peer.hostname, peer.myASN, peer.asn)
  }

  function PolicyName(asn: nat): string {
    Itoa(asn)
  }

  function BlocksOf(pool: AddressPool): seq<Block> {
    seq(|pool.cidrs|, i requires 0 <= i < |pool.cidrs| => Block(pool.cidrs[i]))
  }

  function CidrsOf(blocks: seq<Block>): seq<string> {
    seq(|blocks|, i requires 0 <= i < |blocks| => blocks[i].cidr)
  }

  function DesiredPolicies(base: BaseConfig): seq<Named<PolicySpec>> {
    PeerObjects(base.peers, PolicyName, PolicySpecOf)
  }

  function AnnotationKey(asn: int): string {
    "cilium.io/bgp-virtual-router." + Itoa(asn)
  }

  const ROUTER_ID := "router-id=127.0.0.1"

  /** From some version on there is a write of ours that left the annotation for the ASN. */
  ghost predicate Annotated(h: seq<Write<NodeObject>>, from: nat, asn: int) {
    var key := "cilium.io/bgp-virtual-router." + Itoa(asn);
    exists i :: from <= i < |h| && h[i].own && Annotation(h[i].value, key) == Some("router-id=127.0.0.1")
  }

  /** A node as it was written over time, the calls of ours that it refused, and whether it has no
      annotations at all. */
  datatype NodeRecord = NodeRecord(history: seq<Write<NodeObject>>, refusals: nat, bare: bool)

  datatype NodeRecords = NodeRecords(failedLists: nat, nodes: map<string, NodeRecord>)

  /** Since `before` a write of ours has annotated the node under the number of its label. */
  ghost predicate IsAnnotated(node: Node, before: NodeRecords, now: NodeRecords) {
    && GetASNFromNodeLabels(node).Ok? && node.name in before.nodes && node.name in now.nodes
    && Annotated(now.nodes[node.name].history, |before.nodes[node.name].history|, GetASNFromNodeLabels(node).value)
  }

  ghost predicate AllAnnotated(listed: seq<Node>, before: NodeRecords, now: NodeRecords) {
    forall i :: 0 <= i < |listed| ==> IsAnnotated(listed[i], before, now)
  }

  /** Why a listed node is not annotated: it has no proper ASN, it is unknown or has no
      annotations at all, a call of ours was refused, or others wrote it `steps` times. */
  ghost predicate Unannotatable(n: Node, before: NodeRecords, now: NodeRecords, steps: nat) {
    || GetASNFromNodeLabels(n).Err?
    || n.name !in before.nodes || n.name !in now.nodes
    || now.nodes[n.name].bare
    || now.nodes[n.name].refusals > before.nodes[n.name].refusals
    || |now.nodes[n.name].history| >= |before.nodes[n.name].history| + steps
  }

  ghost predicate CannotAnnotate(listed: seq<Node>, before: NodeRecords, now: NodeRecords, steps: nat) {
    || now.failedLists > before.failedLists
    || exists i :: 0 <= i < |listed| && Unannotatable(listed[i], before, now, steps)
  }

  /** Histories and refusals only grow. */
  ghost predicate Grown(before: NodeRecords, now: NodeRecords) {
    && before.nodes.Keys == now.nodes.Keys
    && forall n :: n in before.nodes ==>
         && IsPrefix(before.nodes[n].history, now.nodes[n].history)
         && now.nodes[n].refusals >= before.nodes[n].refusals
  }

  lemma GrowsOn(a: NodeRecords, b: NodeRecords, c: NodeRecords)
    requires Grown(a, b) && Grown(b, c)
    ensures Grown(a, c)
  {
    forall n | n in a.nodes ensures IsPrefix(a.nodes[n].history, c.nodes[n].history) {
      assert c.nodes[n].history[..|b.nodes[n].history|][..|a.nodes[n].history|] == a.nodes[n].history;
    }
  }

  lemma StaysAnnotated(node: Node, a: NodeRecords, b: NodeRecords, c: NodeRecords)
    requires Grown(a, b) && Grown(b, c)
    ensures IsAnnotated(node, a, b) ==> IsAnnotated(node, a, c)
    ensures IsAnnotated(node, b, c) ==> IsAnnotated(node, a, c)
  {
    if IsAnnotated(node, a, b) {
      var h, h' := b.nodes[node.name].history, c.nodes[node.name].history;
      var key := "cilium.io/bgp-virtual-router." + Itoa(GetASNFromNodeLabels(node).value);
      var i :| |a.nodes[node.name].history| <= i < |h|
               && h[i].own && Annotation(h[i].value, key) == Some("router-id=127.0.0.1");
      assert h'[..|h|][i] == h'[i];
    }
  }

  lemma OneMoreAnnotated(nodes: seq<Node>, i: nat, a: NodeRecords, b: NodeRecords, c: NodeRecords)
    requires Grown(a, b) && Grown(b, c) && i < |nodes|
    requires AllAnnotated(nodes[..i], a, b) && IsAnnotated(nodes[i], b, c)
    ensures AllAnnotated(nodes[..i + 1], a, c)
  {
    var more := nodes[..i + 1];
    forall j | 0 <= j < |more| ensures IsAnnotated(more[j], a, c) {
      StaysAnnotated(nodes[j], a, b, c);
      if j < i {
        assert IsAnnotated(nodes[..i][j], a, b);
      }
    }
  }

  /** The custom resources and the nodes of the cluster. */
  class Client {
    const policies: Collection<PolicySpec>
    const pools: Collection<seq<Block>>
    const nodes: map<string, Versioned<NodeObject>>
    const nodeList: seq<Node>  // what the cluster answers when asked for its nodes
    ghost var failedNodeLists: nat

    ghost function NodeObjects(): set<Versioned<NodeObject>> {
      nodes.Values
    }

    ghost predicate Valid()
      reads NodeObjects()
    {
      AllValid(NodeObjects())
    }

    ghost function Current(): Objects
      reads policies, pools
    {
      Objects(policies.objects, pools.objects)
    }

    ghost function Failures(): nat
      reads policies, pools
    {
      policies.failures + pools.failures
    }

    ghost function Records(): (r: NodeRecords)
      reads this, NodeObjects()
      ensures r.nodes.Keys == nodes.Keys
    {
      NodeRecords(failedNodeLists,
                  map n | n in nodes ::
                    assert nodes[n] in NodeObjects();
                    NodeRecord(nodes[n].history, nodes[n].refusals, nodes[n].value.annotations.None?))
    }

    constructor (policies: Collection<PolicySpec>, pools: Collection<seq<Block>>,
                 nodes: map<string, Versioned<NodeObject>>, nodeList: seq<Node>)
      requires forall n :: n in nodes ==> nodes[n].Valid()
      ensures this.policies == policies && this.pools == pools && this.nodes == nodes && this.nodeList == nodeList
      ensures Valid()
    {
      this.policies, this.pools, this.nodes, this.nodeList := policies, pools, nodes, nodeList;
    }

    method GetNodes() returns (r: Result<seq<Node>>)
      modifies this`failedNodeLists
      ensures r.Ok? ==> r.value == nodeList
      ensures failedNodeLists == old(failedNodeLists) + if r.Err? then 1 else 0
    {
      var failed: bool := *;
      if failed { failedNodeLists := failedNodeLists + 1; }
      r := if failed then Err else Ok(nodeList);
    }
  }

  class Config {
    const base: BaseConfig
    const client: Client
    const steps: nat  // of the backoff

    constructor (base: BaseConfig, client: Client, steps: nat)
      requires steps > 0
      ensures this.base == base && this.client == client && this.steps == steps
    {
      this.base, this.client, this.steps := base, client, steps;
    }

    method WriteCRs() returns (ok: bool)
      requires KeyedByName(base) && client.Valid() && steps > 0
      modifies client, client.policies, client.pools, client.NodeObjects()
      ensures client.Valid()
      ensures Interrupted(base, old(client.Current()), client.Current())
      ensures ok ==> client.Failures() == old(client.Failures())
      ensures client.Failures() == old(client.Failures()) ==> client.Current() == Final(base)
      ensures client.policies.objects != Latest(DesiredPolicies(base)) ==>
                client.pools.objects == old(client.pools.objects) && client.pools.changes == old(client.pools.changes)
      ensures ok ==> AllAnnotated(client.nodeList, old(client.Records()), client.Records())
      ensures !ok ==>
                || client.Failures() > old(client.Failures())
                || CannotAnnotate(client.nodeList, old(client.Records()), client.Records(), steps)
      ensures ok && old(client.policies.objects) == Latest(DesiredPolicies(base)) ==>
                client.policies.changes
                == old(client.policies.changes) + Upserts(Latest(DesiredPolicies(base)), DesiredPolicies(base))
      ensures ok && old(client.pools.objects) == SpecsOf(base, BlocksOf) ==>
          client.pools.changes == old(client.pools.changes)
    {
      ok := WriteResources();
      assert client.Records() == old(client.Records());
      if !ok { return; }
      ok := WriteNodeAnnotations();
    }

    /** The policies and then the pools. */
    method WriteResources() returns (ok: bool)
      requires KeyedByName(base)
      modifies client.policies, client.pools
      ensures Interrupted(base, old(client.Current()), client.Current())
      ensures client.Failures() == old(client.Failures()) + if ok then 0 else 1
      ensures ok ==> client.Current() == Final(base)
      ensures ok && old(client.policies.objects) == Latest(DesiredPolicies(base)) ==>
                client.policies.changes
                == old(client.policies.changes) + Upserts(Latest(DesiredPolicies(base)), DesiredPolicies(base))
      ensures ok && old(client.pools.objects) == SpecsOf(base, BlocksOf) ==>
                client.pools.changes == old(client.pools.changes)
      // Where it stops at the policies, the pools have not been touched.
      ensures client.policies.objects != Latest(DesiredPolicies(base)) ==>
                client.pools.objects == old(client.pools.objects) && client.pools.changes == old(client.pools.changes)
    {
      ok := WritePeers(client.policies, DesiredPolicies(base));
      if !ok { return; }
      ok := WritePools(client.pools, base, BlocksOf);
    }

    /** Annotates every listed node under the number of its label, whoever else writes the nodes. */
    method WriteNodeAnnotations() returns (ok: bool)
      requires client.Valid() && steps > 0
      modifies client, client.NodeObjects()
      ensures client.Valid()
      ensures !ok ==> CannotAnnotate(client.nodeList, old(client.Records()), client.Records(), steps)
      ensures ok ==> AllAnnotated(client.nodeList, old(client.Records()), client.Records())
    {
      var listed := client.GetNodes();
      if listed.Err? { return false; }
      var nodes := listed.value;
      ghost var start := client.Records();
      for i := 0 to |nodes|
        invariant client.Valid() && Grown(start, client.Records())
        invariant client.Records().failedLists == start.failedLists
        invariant AllAnnotated(nodes[..i], start, client.Records())
      {
        ghost var before := client.Records();
        ok := AnnotateNode(nodes[i]);
        GrowsOn(start, before, client.Records());
        if !ok { return false; }
        OneMoreAnnotated(nodes, i, start, before, client.Records());
      }
      assert nodes[..|nodes|] == nodes;
      ok := true;
    }

    method AnnotateNode(n: Node) returns (ok: bool)
      requires client.Valid() && steps > 0
      modifies client.NodeObjects()
      ensures client.Valid() && Grown(old(client.Records()), client.Records())
      ensures ok ==> IsAnnotated(n, old(client.Records()), client.Records())
      ensures !ok ==> Unannotatable(n, old(client.Records()), client.Records(), steps)
    {
      var asn := GetASNFromNodeLabels(n);
      if asn.Err? || n.name !in client.nodes { return false; }
      var node := client.nodes[n.name];
      assert node in client.NodeObjects();
      var outcome := UpdateNodeAnnotationsWithBackoff(node, map[AnnotationKey(asn.value) := ROUTER_ID], steps);
      ok := outcome.Stored?;
      if ok {
        var last := |node.history| - 1;
        assert node.history[last].own && node.history[last].value == node.value;
        ghost var key := "cilium.io/bgp-virtual-router." + Itoa(asn.value);
        assert Annotation(node.value, key) == Some("router-id=127.0.0.1");
      }
    }
  }

  /** The custom resources that a complete write leaves behind, and what an interrupted one can. */
  datatype Objects = Objects(policies: map<string, PolicySpec>, pools: map<string, seq<Block>>)

  function Final(base: BaseConfig): Objects {
    Objects(Latest(DesiredPolicies(base)), SpecsOf(base, BlocksOf))
  }

  ghost predicate Interrupted(base: BaseConfig, before: Objects, now: Objects) {
    && Between(before.policies, now.policies, DesiredPolicies(base))
    && BetweenMaps(before.pools, now.pools, SpecsOf(base, BlocksOf))
  }

  /** Crash and resume: writes of the same configuration that stopped anywhere never lose a
      desired object, and never leave anything but old and desired specs. */
  lemma CrashResume(base: BaseConfig, states: seq<Objects>)
    requires states != []
    requires forall i :: 0 <= i < |states| - 1 ==> Interrupted(base, states[i], states[i + 1])
    ensures var start, stop := states[0], states[|states| - 1];
            && Interrupted(base, start, stop)
            && (forall n :: n in start.policies && Wanted(DesiredPolicies(base), n) ==> n in stop.policies)
            && (forall n :: n in start.pools && n in base.addressPools ==> n in stop.pools)
  {
    BetweenIsClosed(seq(|states|, i requires 0 <= i < |states| => states[i].policies), DesiredPolicies(base));
    BetweenMapsIsClosed(seq(|states|, i requires 0 <= i < |states| => states[i].pools), SpecsOf(base, BlocksOf));
  }

  /** After a complete write there is one policy per distinct ASN, for the last peer with it, and
      the blocks of every pool are its CIDRs. */
  lemma FinalExact(base: BaseConfig, asn: nat, n: string)
    ensures var policies := Latest(DesiredPolicies(base));
            && (Itoa(asn) in policies <==> exists i :: 0 <= i < |base.peers| && base.peers[i].asn == asn)
            && (Itoa(asn) in policies ==>
                  exists i :: 0 <= i < |base.peers| && base.peers[i].asn == asn
                              && policies[Itoa(asn)].localASN == base.peers[i].myASN
                              && policies[Itoa(asn)].peerASN == asn
                              && policies[Itoa(asn)].nodeSelector == base.peers[i].hostname
                              && forall j :: i < j < |base.peers| ==> base.peers[j].asn != asn)
            && (n in policies ==> exists i :: 0 <= i < |base.peers| && n == Itoa(base.peers[i].asn))
    ensures var pools: map<string, seq<Block>> := SpecsOf(base, BlocksOf);
            && (n in pools <==> n in base.addressPools)
            && (n in pools ==>
                  && |pools[n]| == |base.addressPools[n].cidrs|
                  && (forall i :: 0 <= i < |pools[n]| ==> pools[n][i].cidr == base.addressPools[n].cidrs[i])
                  && forall c :: Block(c) in pools[n] <==> c in base.addressPools[n].cidrs)
  {
    forall a: nat, b: nat | PolicyName(a) == PolicyName(b) ensures a == b {
      PeerNameInjective(a, b);
    }
    OneObjectPerASN(base.peers, PolicyName, PolicySpecOf, asn, n);
    if n in base.addressPools {
      BlocksAreCidrs(base.addressPools[n]);
    }
  }

  /** Exactly one policy for each ASN of a node with an internal address, for the last such node. */
  ghost predicate OnePerNodeASN(objects: map<string, PolicySpec>, nodes: seq<Node>) {
    && (forall n :: n in objects ==> exists i: nat :: IsObjectOf(n, objects[n], nodes, i))
    && (forall i :: 0 <= i < |nodes| && HasInternal(nodes[i]) ==>
          exists asn: nat :: HasASN(nodes[i], asn) && Itoa(asn) in objects)
  }

  ghost predicate IsObjectOf(n: string, spec: PolicySpec, nodes: seq<Node>, i: nat) {
    exists asn: nat :: LastWith(nodes, i, asn) && n == Itoa(asn)
                       && spec.localASN == asn && spec.peerASN == asn && spec.nodeSelector == nodes[i].name
  }

  lemma FinalPoliciesOfNodes(base: BaseConfig, nodes: seq<Node>, idx: seq<nat>)
    requires Corresponds(base.peers, nodes, idx)
    ensures OnePerNodeASN(Latest(DesiredPolicies(base)), nodes)
  {
    var objects := Latest(DesiredPolicies(base));
    forall a: nat, b: nat | PolicyName(a) == PolicyName(b) ensures a == b {
      PeerNameInjective(a, b);
    }
    forall n | n in objects ensures exists i: nat :: IsObjectOf(n, objects[n], nodes, i) {
      ObjectsOfNodes(nodes, base.peers, idx, PolicyName, PolicySpecOf, n);
      var k :| 0 <= k < |base.peers| && n == PolicyName(base.peers[k].asn)
               && objects[n] == PolicySpecOf(base.peers[k]) && LastWith(nodes, idx[k], base.peers[k].asn);
      assert IsPeerOf(base.peers[k], nodes[idx[k]]);
      assert IsObjectOf(n, objects[n], nodes, idx[k]);
    }
    forall i | 0 <= i < |nodes| && HasInternal(nodes[i])
      ensures exists asn: nat :: HasASN(nodes[i], asn) && Itoa(asn) in objects
    {
      EveryNodeHasObject(nodes, base.peers, idx, PolicyName, PolicySpecOf, i);
      var asn: nat :| HasASN(nodes[i], asn) && PolicyName(asn) in objects;
      assert Itoa(asn) in objects;
    }
  }

  /** The text of the annotation's key names the local ASN of the node's policy exactly if the
      label's number is a proper ASN. */
  lemma AnnotationNamesPolicyASN(node: Node, spec: PolicySpec)
    requires PeerOf(node).Some? && spec == PolicySpecOf(PeerOf(node).value)
    ensures AnnotationKey(GetASNFromNodeLabels(node).value) == "cilium.io/bgp-virtual-router." + Itoa(spec.localASN)
            <==> 0 <= GetASNFromNodeLabels(node).value < TWO_TO_THE_32
  {
    var prefix, asn := "cilium.io/bgp-virtual-router.", GetASNFromNodeLabels(node).value;
    AnnotationNamesPeerASN(node);
    assert (prefix + Itoa(asn))[|prefix|..] == Itoa(asn);
    assert (prefix + Itoa(spec.localASN))[|prefix|..] == Itoa(spec.localASN);
  }

  lemma BlocksAreCidrs(pool: AddressPool)
    ensures forall c :: Block(c) in BlocksOf(pool) <==> c in pool.cidrs
    ensures CidrsOf(BlocksOf(pool)) == pool.cidrs
  {
    forall c ensures Block(c) in BlocksOf(pool) <==> c in pool.cidrs {
      if c in pool.cidrs {
        var i :| 0 <= i < |pool.cidrs| && pool.cidrs[i] == c;
        assert BlocksOf(pool)[i] == Block(c);
      }
    }
  }
}
