/** Nodes as BGP peers (config/peer.go, computePeers and getASNFromNodeLabels in
    config/config.go, NodeAddress in resources/kubernetes/node.go). */
module Peers {
  import opened Wrappers
  import opened Text
  import opened Reconcile

  const PRIMARY_ASN_LABEL := "machine.metal-stack.io/network.primary.asn"
  const INTERNAL_IP := "InternalIP"
  const TWO_TO_THE_32: int := 0x1_0000_0000

  datatype Address = Address(kind: string, address: string)

  datatype Node = Node(name: string, labels: map<string, string>, addresses: seq<Address>)

  /** The numbers are 32 bits wide; the selector is the host name it selects. */
  datatype Peer = Peer(myASN: nat, asn: nat, address: string, hostname: string)

  /** Go's conversion of an int64 keeps the low 32 bits. */
  function ToUint32(n: int): (r: nat)
    ensures r < TWO_TO_THE_32 && (r == n <==> 0 <= n < TWO_TO_THE_32)
  {
    n % TWO_TO_THE_32
  }

  function GetASNFromNodeLabels(node: Node): Result<int> {
    if PRIMARY_ASN_LABEL !in node.labels then Err
    else
      var asn := ParseInt64(node.labels[PRIMARY_ASN_LABEL]);
      if asn.None? then Err else Ok(asn.value)
  }

  /** The first internal address of a node. */
  function FirstInternal(addresses: seq<Address>): Option<string> {
    if addresses == [] then None
    else if addresses[0].kind == INTERNAL_IP then Some(addresses[0].address)
    else FirstInternal(addresses[1..])
  }

  /** The address at place i is internal, and the first such one. */
  predicate FirstAt(addresses: seq<Address>, i: nat) {
    && i < |addresses| && addresses[i].kind == INTERNAL_IP
    && forall j :: 0 <= j < i ==> addresses[j].kind != INTERNAL_IP
  }

  predicate HasInternal(node: Node) {
    exists i :: 0 <= i < |node.addresses| && node.addresses[i].kind == INTERNAL_IP
  }

  lemma {:induction false} FirstInternalExact(addresses: seq<Address>)
    ensures match FirstInternal(addresses) {
              case Some(a) => exists i: nat :: FirstAt(addresses, i) && addresses[i].address == a
              case None => forall i :: 0 <= i < |addresses| ==> addresses[i].kind != INTERNAL_IP
            }
  {
    if addresses != [] && addresses[0].kind != INTERNAL_IP {
      FirstInternalExact(addresses[1..]);
      if FirstInternal(addresses).Some? {
        var i: nat :| FirstAt(addresses[1..], i) && addresses[1..][i].address == FirstInternal(addresses).value;
        assert forall j :: 1 <= j < i + 1 ==> addresses[j] == addresses[1..][j - 1];
        assert addresses[i + 1] == addresses[1..][i];
        assert FirstAt(addresses, i + 1);
      } else {
        assert forall i :: 1 <= i < |addresses| ==> addresses[i] == addresses[1..][i - 1];
      }
    } else if addresses != [] {
      assert FirstAt(addresses, 0);
    }
  }

  method NodeAddress(node: Node) returns (r: Result<string>)
    ensures r.Ok? <==> HasInternal(node)
    ensures r.Ok? ==> exists i: nat :: FirstAt(node.addresses, i) && node.addresses[i].address == r.value
    ensures r.Ok? <==> FirstInternal(node.addresses).Some?
    ensures r.Ok? ==> FirstInternal(node.addresses) == Some(r.value)
  {
    FirstInternalExact(node.addresses);
    for i := 0 to |node.addresses|
      invariant FirstInternal(node.addresses) == FirstInternal(node.addresses[i..])
    {
      if node.addresses[i].kind == INTERNAL_IP { return Ok(node.addresses[i].address); }
      assert node.addresses[i..][1..] == node.addresses[i + 1..];
    }
    return Err;
  }

  /** The peer of a node with an ASN, if the node has an internal address. */
  function PeerOf(node: Node): Option<Peer> {
    var asn, address := GetASNFromNodeLabels(node), FirstInternal(node.addresses);
    if asn.Ok? && address.Some? then Some(Peer(ToUint32(asn.value), ToUint32(asn.value), address.value, node.name))
    else None
  }

  method NewPeer(node: Node, asn: int) returns (r: Result<Peer>)
    ensures r.Ok? <==> FirstInternal(node.addresses).Some?
    ensures r.Ok? ==>
              && r.value.myASN == r.value.asn && r.value.asn == asn % TWO_TO_THE_32
              && FirstInternal(node.addresses) == Some(r.value.address) && r.value.hostname == node.name
    ensures GetASNFromNodeLabels(node) == Ok(asn) ==> PeerOf(node) == if r.Ok? then Some(r.value) else None
  {
    var address := NodeAddress(node);
    if address.Err? { return Err; }
    return Ok(Peer(ToUint32(asn), ToUint32(asn), address.value, node.name));
  }

  function PeersOf(nodes: seq<Node>): seq<Peer> {
    if nodes == [] then []
    else
      var peer := PeerOf(nodes[|nodes| - 1]);
      PeersOf(nodes[..|nodes| - 1]) + if peer.Some? then [peer.value] else []
  }

  /** What a peer says, field by field: the host name, the first internal address, and twice the
      label's number modulo 2^32. */
  ghost predicate IsPeerOf(p: Peer, node: Node) {
    && p.hostname == node.name
    && (exists i: nat :: FirstAt(node.addresses, i) && node.addresses[i].address == p.address)
    && HasASN(node, p.asn) && p.myASN == p.asn
  }

  predicate HasASNLabel(node: Node) {
    PRIMARY_ASN_LABEL in node.labels && ParseInt64(node.labels[PRIMARY_ASN_LABEL]).Some?
  }

  predicate HasASN(node: Node, asn: nat) {
    HasASNLabel(node) && asn == ParseInt64(node.labels[PRIMARY_ASN_LABEL]).value % TWO_TO_THE_32
  }

  /** The peers are those of the nodes at these places, one each, in order; and these are the
      places of all nodes with an internal address. */
  ghost predicate Corresponds(peers: seq<Peer>, nodes: seq<Node>, idx: seq<nat>) {
    && Picks(idx, |nodes|) && |idx| == |peers|
    && (forall k :: 0 <= k < |idx| ==> IsPeerOf(peers[k], nodes[idx[k]]))
    && (forall j: nat :: j < |nodes| ==> (j in idx <==> HasInternal(nodes[j])))
  }

  lemma PeerOfExact(node: Node)
    requires GetASNFromNodeLabels(node).Ok?
    ensures PeerOf(node).Some? <==> HasInternal(node)
    ensures PeerOf(node).Some? ==> IsPeerOf(PeerOf(node).value, node)
  {
    FirstInternalExact(node.addresses);
  }

  lemma CorrespondsSnoc(peers: seq<Peer>, nodes: seq<Node>, idx: seq<nat>, node: Node)
    requires Corresponds(peers, nodes, idx) && GetASNFromNodeLabels(node).Ok?
    ensures var peer := PeerOf(node);
            Corresponds(if peer.Some? then peers + [peer.value] else peers, nodes + [node],
                        if peer.Some? then idx + [|nodes|] else idx)
  {
    PeerOfExact(node);
    PicksSnoc(idx, |nodes|);
    var longer := nodes + [node];
    assert forall j: nat :: j < |nodes| ==> longer[j] == nodes[j];
    if PeerOf(node).Some? {
      var peers', idx' := peers + [PeerOf(node).value], idx + [|nodes|];
      forall k | 0 <= k < |idx'| ensures IsPeerOf(peers'[k], longer[idx'[k]]) {
        if k < |idx| {
          assert peers'[k] == peers[k] && longer[idx'[k]] == nodes[idx[k]];
        }
      }
      forall j: nat | j < |longer| ensures j in idx' <==> HasInternal(longer[j]) {
      }
    }
  }

  lemma {:induction false} PeersOfCorrespond(nodes: seq<Node>)
    requires forall i :: 0 <= i < |nodes| ==> GetASNFromNodeLabels(nodes[i]).Ok?
    ensures exists idx :: Corresponds(PeersOf(nodes), nodes, idx)
  {
    if nodes == [] {
      assert Corresponds(PeersOf(nodes), nodes, []);
    } else {
      var front, last := nodes[..|nodes| - 1], nodes[|nodes| - 1];
      PeersOfCorrespond(front);
      OneMoreCorresponds(front, last);
      assert front + [last] == nodes;
    }
  }

  lemma OneMoreCorresponds(front: seq<Node>, last: Node)
    requires GetASNFromNodeLabels(last).Ok? && exists idx :: Corresponds(PeersOf(front), front, idx)
    ensures exists idx :: Corresponds(PeersOf(front + [last]), front + [last], idx)
  {
    var idx :| Corresponds(PeersOf(front), front, idx);
    CorrespondsSnoc(PeersOf(front), front, idx, last);
    PeersOfSnoc(front, last);
  }

  lemma PeersOfSnoc(front: seq<Node>, last: Node)
    ensures PeersOf(front + [last])
            == if PeerOf(last).Some? then PeersOf(front) + [PeerOf(last).value] else PeersOf(front)
  {
    assert (front + [last])[..|front|] == front;
    assert PeersOf(front) + [] == PeersOf(front);
  }

  /** Fails exactly if some node has no proper ASN label; nodes without address are skipped. */
  method ComputePeers(nodes: seq<Node>) returns (r: Result<seq<Peer>>)
    ensures r.Err? <==> exists i :: 0 <= i < |nodes| && GetASNFromNodeLabels(nodes[i]).Err?
    ensures r.Err? <==> exists i :: 0 <= i < |nodes| && !HasASNLabel(nodes[i])
    ensures r.Ok? ==> exists idx :: Corresponds(r.value, nodes, idx)
    ensures r.Ok? ==> r.value == PeersOf(nodes)
  {
    var peers := [];
    for i := 0 to |nodes|
      invariant forall j :: 0 <= j < i ==> GetASNFromNodeLabels(nodes[j]).Ok?
      invariant peers == PeersOf(nodes[..i])
    {
      assert nodes[..i + 1][..i] == nodes[..i];
      var asn := GetASNFromNodeLabels(nodes[i]);
      if asn.Err? { return Err; }
      var peer := NewPeer(nodes[i], asn.value);
      if peer.Ok? {
        peers := peers + [peer.value];
      } else {
        assert peers + [] == peers;
      }
    }
    assert nodes[..|nodes|] == nodes;
    PeersOfCorrespond(nodes);
    return Ok(peers);
  }

  // ---- names ----

  function PeerName(asn: nat): string {
    "peer-" + Itoa(asn)
  }

  lemma PeerNameInjective(a: nat, b: nat)
    ensures PeerName(a) == PeerName(b) <==> a == b
    ensures Itoa(a) == Itoa(b) <==> a == b
  {
    if PeerName(a) == PeerName(b) {
      assert Itoa(a) == PeerName(a)[|"peer-"|..];
      assert Itoa(b) == PeerName(b)[|"peer-"|..];
    }
    if Itoa(a) == Itoa(b) {
      ItoaInjective(a, b);
    }
  }

  /** The objects of a list of peers, under a naming of ASNs. */
  function PeerObjects<Spec>(peers: seq<Peer>, name: nat -> string, spec: Peer -> Spec): (r: seq<Named<Spec>>)
    ensures |r| == |peers|
  {
    seq(|peers|, i requires 0 <= i < |peers| => Named(name(peers[i].asn), spec(peers[i])))
  }

  /** Under names that tell ASNs apart there is exactly one object for every ASN among the
      peers, and its spec is that of the last peer with this ASN. */
  lemma OneObjectPerASN<Spec(!new)>(peers: seq<Peer>, name: nat -> string, spec: Peer -> Spec, asn: nat, n: string)
    requires forall a: nat, b: nat :: name(a) == name(b) ==> a == b
    ensures var objects := Latest(PeerObjects(peers, name, spec));
            && (name(asn) in objects <==> exists i :: 0 <= i < |peers| && peers[i].asn == asn)
            && (name(asn) in objects ==>
                  exists i :: 0 <= i < |peers| && objects[name(asn)] == spec(peers[i]) && peers[i].asn == asn
                              && forall j :: i < j < |peers| ==> peers[j].asn != asn)
            && (n in objects ==> exists i :: 0 <= i < |peers| && n == name(peers[i].asn))
  {
    var desired := PeerObjects(peers, name, spec);
    LatestIsLastEntry(desired, name(asn));
    LatestIsLastEntry(desired, n);
    if i :| 0 <= i < |peers| && peers[i].asn == asn {
      assert desired[i].name == name(asn);
    }
    if name(asn) in Latest(desired) {
      var i :| 0 <= i < |desired| && desired[i] == Named(name(asn), Latest(desired)[name(asn)])
               && forall j :: i < j < |desired| ==> desired[j].name != name(asn);
      assert peers[i].asn == asn;
      forall j | i < j < |peers| ensures peers[j].asn != asn {
        assert desired[j].name == name(peers[j].asn);
      }
    }
    if n in Latest(desired) {
      var i :| 0 <= i < |desired| && desired[i].name == n;
      assert n == name(peers[i].asn);
    }
  }

  /** The last of the nodes with an internal address that has this ASN. */
  predicate LastWith(nodes: seq<Node>, i: nat, asn: nat) {
    && i < |nodes| && HasInternal(nodes[i]) && HasASN(nodes[i], asn)
    && forall j :: i < j < |nodes| && HasInternal(nodes[j]) ==> !HasASN(nodes[j], asn)
  }

  /** The objects in terms of nodes: each is made from the peer of the last node with its ASN. */
  lemma ObjectsOfNodes<Spec(!new)>(nodes: seq<Node>, peers: seq<Peer>, idx: seq<nat>, name: nat -> string,
                                   spec: Peer -> Spec, n: string)
    requires forall a: nat, b: nat :: name(a) == name(b) ==> a == b
    requires Corresponds(peers, nodes, idx) && n in Latest(PeerObjects(peers, name, spec))
    ensures exists k :: 0 <= k < |peers| && n == name(peers[k].asn) && LastWith(nodes, idx[k], peers[k].asn)
                        && Latest(PeerObjects(peers, name, spec))[n] == spec(peers[k])
  {
    var desired := PeerObjects(peers, name, spec);
    LatestIsLastEntry(desired, n);
    var k :| 0 <= k < |desired| && desired[k] == Named(n, Latest(desired)[n])
             && forall j :: k < j < |desired| ==> desired[j].name != n;
    assert idx[k] in idx;
    forall j | idx[k] < j < |nodes| && HasInternal(nodes[j]) ensures !HasASN(nodes[j], peers[k].asn) {
      var l :| 0 <= l < |idx| && idx[l] == j;
      assert k < l;
      assert desired[l].name == name(peers[l].asn) != n;
      assert HasASN(nodes[j], peers[l].asn);
    }
  }

  lemma EveryNodeHasObject<Spec(!new)>(nodes: seq<Node>, peers: seq<Peer>, idx: seq<nat>, name: nat -> string,
                                       spec: Peer -> Spec, i: nat)
    requires Corresponds(peers, nodes, idx) && i < |nodes| && HasInternal(nodes[i])
    ensures exists asn: nat :: HasASN(nodes[i], asn) && name(asn) in Latest(PeerObjects(peers, name, spec))
  {
    var k :| 0 <= k < |idx| && idx[k] == i;
    var desired := PeerObjects(peers, name, spec);
    assert desired[k].name == name(peers[k].asn) && IsPeerOf(peers[k], nodes[i]);
    LatestIsLastEntry(desired, name(peers[k].asn));
  }

  /** The key of the annotation names the label's number as it is, the peer its low 32 bits:
      they agree exactly on proper ASNs (RFC 5396, section 2, writes them as plain decimals). */
  lemma AnnotationNamesPeerASN(node: Node)
    requires PeerOf(node).Some?
    ensures Itoa(GetASNFromNodeLabels(node).value) == Itoa(PeerOf(node).value.myASN)
            <==> 0 <= GetASNFromNodeLabels(node).value < TWO_TO_THE_32
  {
    var asn := GetASNFromNodeLabels(node).value;
    if Itoa(asn) == Itoa(ToUint32(asn)) {
      ItoaInjective(asn, ToUint32(asn));
    }
  }

  /** Every label that is too large disagrees; for 2^32 itself, the peer's ASN is 0. */
  lemma LargeLabelDisagrees(node: Node, asn: int)
    requires PRIMARY_ASN_LABEL in node.labels && node.labels[PRIMARY_ASN_LABEL] == Itoa(asn)
    requires TWO_TO_THE_32 <= asn <= MAX_INT64 && HasInternal(node)
    ensures GetASNFromNodeLabels(node) == Ok(asn)
    ensures PeerOf(node).Some? && PeerOf(node).value.myASN == PeerOf(node).value.asn == ToUint32(asn)
    ensures Itoa(asn) != Itoa(PeerOf(node).value.myASN)
    ensures ToUint32(TWO_TO_THE_32) == 0
  {
    DecimalRoundTrip(asn);
    PeerOfExact(node);
    if Itoa(asn) == Itoa(ToUint32(asn)) {
      ItoaInjective(asn, ToUint32(asn));
    }
  }

  /** A label that is itself a printed proper ASN gives a peer of that number. */
  lemma LabelRoundTrip(node: Node, asn: nat)
    requires PRIMARY_ASN_LABEL in node.labels && node.labels[PRIMARY_ASN_LABEL] == Itoa(asn) && asn < TWO_TO_THE_32
    ensures GetASNFromNodeLabels(node) == Ok(asn)
    ensures FirstInternal(node.addresses).Some? ==> PeerOf(node).Some? && PeerOf(node).value.asn == asn
  {
    DecimalRoundTrip(asn);
  }
}
