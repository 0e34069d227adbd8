/** The load balancer controller itself (loadbalancer.go). Each operation is proved to be one of
    the runs of `Lifecycle`, whichever of its calls fail. */
module Controller {
  import opened Wrappers
  import opened Text
  import opened Tags
  import opened Metal
  import opened Detach
  import opened Lifecycle
  import opened Recovery
  import opened Ownership
  import opened Pools
  import opened Peers
  import opened BaseConfigs
  import opened Optimistic
  import opened Reconcile
  import MetalLB
  import Cilium

  const SPECIFIC_ADDRESS_POOL := "metallb.universe.tf/address-pool"

  datatype LoadBalancerType = TypeMetalLB | TypeCilium

  datatype Service = Service(
    id: ServiceName, loadBalancerIP: string, annotations: map<string, string>, ingress: seq<string>)

  /** What has failed so far, and what has happened to the nodes. */
  datatype Counters = Counters(failures: nat, nodes: Cilium.NodeRecords)

  /** A service as it was written over time, and the calls of ours that it refused. */
  datatype ServiceRecord = Unknown | Known(history: seq<Write<ServiceObject>>, refusals: nat)

  predicate StoredAs(r: ServiceRecord, ip: string) {
    r.Known? && r.history != [] && r.history[|r.history| - 1].value.loadBalancerIP == ip
  }

  predicate OnlyOthers(before: ServiceRecord, now: ServiceRecord) {
    before.Known? && now.Known? ==> OthersSince(now.history, |before.history|)
  }

  /** The custom resources of the back end that is used. */
  datatype Resources = InMetalLB(metalLB: MetalLB.Objects) | InCilium(cilium: Cilium.Objects)

  ghost predicate ListsCidr(pools: map<string, seq<string>>, n: string, c: string) {
    n in pools && c in pools[n]
  }

  // ---- removeServiceTag, in place ----

  /** `slices.DeleteFunc`: moves the kept tags to the front of the caller's slice, clears the
      tail, and returns the length of the kept part. */
  method RemoveServiceTag(tags: array<string>, serviceTag: string) returns (n: nat)
    modifies tags
    ensures n == |Kept(old(tags[..]), serviceTag)|
    ensures tags[..] == Compacted(old(tags[..]), serviceTag)
  {
    ghost var before := tags[..];
    var i := 0;
    while i < tags.Length && tags[i] != serviceTag
      invariant i <= tags.Length && forall k :: 0 <= k < i ==> tags[k] != serviceTag
    {
      i := i + 1;
    }
    if i == tags.Length {
      KeptOfOthers(before, serviceTag);
      assert Blanks(0) == [];
      return i;
    }
    n := MoveKept(tags, i, serviceTag);
    ClearTail(tags, n);
  }

  lemma KeptSnoc(tags: seq<string>, j: nat, serviceTag: string)
    requires j < |tags|
    ensures Kept(tags[..j + 1], serviceTag)
            == if tags[j] == serviceTag then Kept(tags[..j], serviceTag) else Kept(tags[..j], serviceTag) + [tags[j]]
  {
    assert tags[..j + 1][..j] == tags[..j];
    assert Kept(tags[..j], serviceTag) + [] == Kept(tags[..j], serviceTag);
  }

  /** From the first tag to drop on, moves the kept tags forward. */
  method MoveKept(tags: array<string>, first: nat, serviceTag: string) returns (i: nat)
    requires first < tags.Length && tags[first] == serviceTag && forall k :: 0 <= k < first ==> tags[k] != serviceTag
    modifies tags
    ensures i <= tags.Length && tags[..i] == Kept(old(tags[..]), serviceTag)
  {
    ghost var before := tags[..];
    i := first;
    var j := first + 1;
    KeptOfOthers(before[..i], serviceTag);
    assert before[..j][..i] == before[..i];
    while j < tags.Length
      invariant i < j <= tags.Length
      invariant tags[..i] == Kept(before[..j], serviceTag)
      invariant forall k :: j <= k < tags.Length ==> tags[k] == before[k]
    {
      KeptSnoc(before, j, serviceTag);
      if tags[j] != serviceTag {
        tags[i] := tags[j];
        assert tags[..i + 1] == tags[..i] + [before[j]];
        i := i + 1;
      }
      j := j + 1;
    }
    assert before[..j] == before;
  }

  method ClearTail(tags: array<string>, from: nat)
    requires from <= tags.Length
    modifies tags
    ensures tags[..] == old(tags[..from]) + Blanks(tags.Length - from)
  {
    for k := from to tags.Length
      invariant tags[..from] == old(tags[..from])
      invariant forall m :: from <= m < k ==> tags[m] == ""
    {
      tags[k] := "";
    }
  }

  /** Which pool or network a fresh address is acquired from, if any is given. */
  function AcquisitionNetwork(service: Service, defaultNetwork: string): Option<string> {
    if SPECIFIC_ADDRESS_POOL in service.annotations then Some(NetworkOfPool(service.annotations[SPECIFIC_ADDRESS_POOL]))
    else if defaultNetwork == "" then None
    else Some(NetworkOfPool(defaultNetwork))
  }

  /** Which network that is: an annotated pool comes before the default network, and the name of
      an ephemeral pool stands for its network. */
  lemma AcquisitionNetworkExact(service: Service, defaultNetwork: string, network: string)
    requires ToLower(network) == network && !HasSuffix(network, "-ephemeral")
    ensures SPECIFIC_ADDRESS_POOL in service.annotations
            && (service.annotations[SPECIFIC_ADDRESS_POOL] == network
                || service.annotations[SPECIFIC_ADDRESS_POOL] == network + "-ephemeral") ==>
              AcquisitionNetwork(service, defaultNetwork) == Some(network)
    ensures SPECIFIC_ADDRESS_POOL !in service.annotations && defaultNetwork == network != "" ==>
              AcquisitionNetwork(service, defaultNetwork) == Some(network)
    ensures AcquisitionNetwork(service, defaultNetwork).None?
            <==> SPECIFIC_ADDRESS_POOL !in service.annotations && defaultNetwork == ""
  {
    assert "-" + EPHEMERAL == "-ephemeral";
    SuffixOfConcat(network, "-ephemeral");
    assert NetworkOfPool(network) == network && NetworkOfPool(network + "-ephemeral") == network;
  }

  class LoadBalancerController {
    const cfg: Settings
    const defaultExternalNetworkID: string
    const additionalNetworks: set<string>
    const canon: Canonical
    const loadBalancerType: LoadBalancerType
    const steps: nat  // of a retry on conflict
    const metal: MetalService
    const metalLB: MetalLB.Client
    const cilium: Cilium.Client
    const services: map<ServiceName, Versioned<ServiceObject>>

    // The three mutexes: whether they are held.
    var configWriteMutex: bool
    var ipAllocateMutex: bool
    var ipUpdateMutex: bool

    constructor (cfg: Settings, defaultExternalNetworkID: string, additionalNetworks: set<string>, canon: Canonical,
                 loadBalancerType: LoadBalancerType, steps: nat, metal: MetalService, metalLB: MetalLB.Client,
                 cilium: Cilium.Client, services: map<ServiceName, Versioned<ServiceObject>>)
      requires steps > 0 && cilium.Valid() && forall s :: s in services ==> services[s].Valid()
      ensures Valid() && AllUnlocked()
    {
      this.cfg, this.defaultExternalNetworkID := cfg, defaultExternalNetworkID;
      this.additionalNetworks := additionalNetworks;
      this.canon, this.loadBalancerType, this.steps := canon, loadBalancerType, steps;
      this.metal, this.metalLB, this.cilium, this.services := metal, metalLB, cilium, services;
      configWriteMutex, ipAllocateMutex, ipUpdateMutex := false, false, false;
    }

    ghost predicate Valid()
      reads cilium.NodeObjects(), services.Values
    {
      steps > 0 && cilium.Valid() && AllValid(services.Values)
    }

    predicate AllUnlocked()
      reads this
    {
      !configWriteMutex && !ipAllocateMutex && !ipUpdateMutex
    }

    // ---- detaching ----

    /** Attempt number k: remove the tag from what is now in the response, and send the result. */
    method TryDetach(ip: IPResponse, tags: array<string>, serviceTag: string, ghost k: nat) returns (ok: bool)
      requires ipUpdateMutex && ip.ipaddress.Some? && tags[..] == TagsAt(ip.tags, serviceTag, k)
      modifies metal`inventory, metal`log, tags
      ensures tags[..] == TagsAt(ip.tags, serviceTag, k + 1)
      ensures metal.log == old(metal.log) + [Attempt(DetachCall(ip, serviceTag, k), ok)]
      ensures metal.inventory
              == if ok then Effect(old(metal.inventory), DetachCall(ip, serviceTag, k)) else old(metal.inventory)
    {
      var n := RemoveServiceTag(tags, serviceTag);
      assert tags[..n] == Kept(TagsAt(ip.tags, serviceTag, k), serviceTag);
      if ip.iptype == Some(EPHEMERAL) && n == 0 {
        ok := metal.FreeIP(ip.ipaddress.value);
      } else {
        var updated := metal.UpdateIP(ip.ipaddress.value, tags[..n]);
        ok := updated.Ok?;
      }
    }

    /** One address: as long as attempts are left. All of them share the response's tag slice. */
    method DetachWithRetry(ip: IPResponse, serviceTag: string) returns (ok: bool, ghost fails: nat)
      requires ipUpdateMutex && ip.ipaddress.Some?
      modifies metal`inventory, metal`log
      ensures fails <= cfg.attempts && ok == (fails < cfg.attempts)
      ensures metal.log == old(metal.log) + DetachLog(ip, serviceTag, fails, cfg.attempts)
      ensures metal.inventory == Replay(old(metal.inventory), DetachLog(ip, serviceTag, fails, cfg.attempts))
    {
      var tags := new string[|ip.tags|](i requires 0 <= i < |ip.tags| => ip.tags[i]);
      assert tags[..] == ip.tags;
      ghost var inv, sent := metal.inventory, metal.log;
      var attempt: nat := 0;
      while attempt < cfg.attempts
        invariant attempt <= cfg.attempts
        invariant tags[..] == TagsAt(ip.tags, serviceTag, attempt)
        invariant metal.log == sent + FailedAttempts(ip, serviceTag, attempt)
        invariant metal.inventory == inv
      {
        ok := TryDetach(ip, tags, serviceTag, attempt);
        AttemptSnoc(sent, ip, serviceTag, attempt, cfg.attempts);
        if ok {
          DetachEffect(inv, ip, serviceTag, attempt, cfg.attempts);
          return true, attempt;
        }
        attempt := attempt + 1;
      }
      DetachEffect(inv, ip, serviceTag, attempt, cfg.attempts);
      assert FailedAttempts(ip, serviceTag, attempt) + [] == FailedAttempts(ip, serviceTag, attempt);
      return false, attempt;
    }

    lemma AttemptSnoc(sent: seq<Attempt>, ip: IPResponse, tag: string, k: nat, attempts: nat)
      requires ip.ipaddress.Some? && k < attempts
      ensures var failed, call := FailedAttempts(ip, tag, k), DetachCall(ip, tag, k);
              && sent + failed + [Attempt(call, false)] == sent + FailedAttempts(ip, tag, k + 1)
              && sent + failed + [Attempt(call, true)] == sent + DetachLog(ip, tag, k, attempts)
    {
      var failed, call := FailedAttempts(ip, tag, k), DetachCall(ip, tag, k);
      assert sent + failed + [Attempt(call, false)] == sent + (failed + [Attempt(call, false)]);
      assert sent + failed + [Attempt(call, true)] == sent + (failed + [Attempt(call, true)]);
    }

    /** All addresses of a list, up to the first that cannot be detached. */
    method RemoveServiceTagFromIPs(serviceTag: string, ips: seq<IPResponse>) returns (ok: bool, ghost plan: seq<nat>)
      requires ipUpdateMutex && Addressed(ips)
      modifies metal`inventory, metal`log
      ensures |plan| <= |ips|
      ensures if ok then Complete(plan, |ips|, cfg.attempts) else Broken(plan, |ips|, cfg.attempts)
      ensures metal.log == old(metal.log) + DetachAllLog(ips, serviceTag, plan, cfg.attempts)
      ensures metal.inventory == Replay(old(metal.inventory), DetachAllLog(ips, serviceTag, plan, cfg.attempts))
    {
      plan := [];
      ghost var inv, sent := metal.inventory, metal.log;
      for i := 0 to |ips|
        invariant |plan| == i && Complete(plan, i, cfg.attempts)
        invariant metal.log == sent + DetachAllLog(ips, serviceTag, plan, cfg.attempts)
        invariant metal.inventory == Replay(inv, DetachAllLog(ips, serviceTag, plan, cfg.attempts))
      {
        ghost var fails: nat;
        ghost var done := plan;
        ok, fails := DetachWithRetry(ips[i], serviceTag);
        DetachAllSnoc(inv, sent, ips, serviceTag, done, fails, cfg.attempts);
        plan := done + [fails];
        assert plan[..i] == done;
        if !ok { return; }
      }
      ok := true;
    }

    /** Deletes a load balancer: a run of deletion, and success exactly if the run succeeded. */
    method EnsureLoadBalancerDeleted(service: Service) returns (ok: bool, ghost run: Run)
      requires AllUnlocked()
      modifies this, metal
      ensures AllUnlocked()
      ensures run.DeleteRun? && run.svc == service.id && ValidRun(cfg, old(metal.inventory), run)
      ensures metal.log == old(metal.log) + RunLog(cfg, old(metal.inventory), run)
      ensures metal.inventory == After(cfg, old(metal.inventory), run)
      ensures ok <==> Succeeded(cfg, run)
      ensures metal.failedSearches == old(metal.failedSearches) ==>
                run.list.Some? && SearchesAnswered(cfg, old(metal.inventory), run)
    {
      ipUpdateMutex := true;
      ok, run := DetachService(service);
      ipUpdateMutex := false;
    }

    /** The whole section under the mutex, from the search on. */
    method DetachService(service: Service) returns (ok: bool, ghost run: Run)
      requires ipUpdateMutex
      modifies metal
      ensures run.DeleteRun? && run.svc == service.id && ValidRun(cfg, old(metal.inventory), run)
      ensures metal.log == old(metal.log) + RunLog(cfg, old(metal.inventory), run)
      ensures metal.inventory == After(cfg, old(metal.inventory), run)
      ensures ok <==> Succeeded(cfg, run)
      ensures metal.failedSearches == old(metal.failedSearches) ==>
                run.list.Some? && SearchesAnswered(cfg, old(metal.inventory), run)
    {
      var serviceTag := ServiceTag(cfg, service.id);
      var ips := metal.FindProjectIPsWithTag(cfg.project, serviceTag);
      if ips.Err? {
        ok, run := false, DeleteRun(service.id, None, []);
        assert metal.log + [] == metal.log;
        return;
      }
      ghost var plan;
      ok, plan := RemoveServiceTagFromIPs(serviceTag, ips.value);
      run := DeleteRun(service.id, Some(ips.value), plan);
    }

    // ---- fixed addresses ----

    /** `slices.DeleteFunc` on the list of responses, which is not read again. */
    method Others(ips: seq<IPResponse>, fixedIP: string, ghost inv: Inventory, ghost chosen: set<string>)
        returns (others: seq<IPResponse>)
      requires IsListing(ips, inv, chosen)
      ensures IsListing(others, inv, chosen - {fixedIP})
    {
      others := [];
      ghost var seen: set<string> := {};
      for i := 0 to |ips|
        invariant seen == set j | 0 <= j < i :: ips[j].ipaddress.value
        invariant IsListing(others, inv, seen - {fixedIP})
      {
        ghost var a := ips[i].ipaddress.value;
        assert a !in seen;
        if ips[i].ipaddress != Some(fixedIP) {
          ListingSnoc(others, inv, seen - {fixedIP}, ips[i]);
          assert seen - {fixedIP} + {a} == seen + {a} - {fixedIP};
          others := others + [ips[i]];
        } else {
          assert seen - {fixedIP} == seen + {a} - {fixedIP};
        }
        seen := seen + {a};
      }
      assert seen == chosen by {
        forall a | a in chosen ensures a in seen {
          var i :| 0 <= i < |ips| && ips[i].ipaddress == Some(a);
        }
      }
    }

    /** Appends the service's tag to the tags of a response, unless the address is reserved. */
    method UseIPInCluster(ip: IPResponse, service: Service) returns (r: Result<IPResponse>, ghost use: Use)
      requires ipUpdateMutex && ip.ipaddress.Some?
      modifies metal`inventory, metal`log
      ensures use == if Reserved(ip.tags, cfg.keys) then Use.Refused else Sent(r.Ok?)
      ensures if exists i :: 0 <= i < |ip.tags|
                        && (Key(ip.tags[i]) == cfg.keys.machineID || Key(ip.tags[i]) == cfg.keys.clusterEgress)
              then r.Err? && metal.log == old(metal.log)
              else metal.log == old(metal.log) + [Attempt(Update(ip.ipaddress.value,
                                                                 ip.tags + [ServiceTag(cfg, service.id)]), r.Ok?)]
      ensures r.Ok? ==> use.Sent? && r.value.ipaddress == ip.ipaddress
      ensures var log := UseLog(ip.ipaddress.value, ip.tags, ServiceTag(cfg, service.id), use);
              metal.log == old(metal.log) + log && metal.inventory == Replay(old(metal.inventory), log)
    {
      if HasKey(ip.tags, cfg.keys.machineID) || HasKey(ip.tags, cfg.keys.clusterEgress) {
        assert metal.log + [] == metal.log;
        return Err, Use.Refused;
      }
      ghost var before := metal.inventory;
      var newTags := ip.tags + [ServiceTag(cfg, service.id)];
      r := metal.UpdateIP(ip.ipaddress.value, newTags);
      use := Sent(r.Ok?);
      ReplaySnoc(before, [], Attempt(Update(ip.ipaddress.value, newTags), r.Ok?));
      assert [] + [Attempt(Update(ip.ipaddress.value, newTags), r.Ok?)]
          == UseLog(ip.ipaddress.value, ip.tags, ServiceTag(cfg, service.id), use);
    }

    method EnsureFixed(service: Service) returns (r: Result<seq<string>>, ghost run: Run)
      requires AllUnlocked() && service.loadBalancerIP != ""
      modifies this, metal
      ensures AllUnlocked()
      ensures run.FixedRun? && run.svc == service.id && run.address == service.loadBalancerIP
      ensures ValidRun(cfg, old(metal.inventory), run)
      ensures metal.log == old(metal.log) + RunLog(cfg, old(metal.inventory), run)
      ensures metal.inventory == After(cfg, old(metal.inventory), run)
      ensures r.Ok? <==> Succeeded(cfg, run)
      ensures r.Ok? ==> r.value == service.ingress + [service.loadBalancerIP]
      ensures metal.failedSearches == old(metal.failedSearches) ==> SearchesAnswered(cfg, old(metal.inventory), run)
      ensures metal.failedSearches == old(metal.failedSearches) && InProject(cfg, old(metal.inventory), run.address) ==>
                run.list.Some?
    {
      ipUpdateMutex := true;
      r, run := AttachFixed(service);
      ipUpdateMutex := false;
    }

    method AttachFixed(service: Service) returns (r: Result<seq<string>>, ghost run: Run)
      requires ipUpdateMutex
      modifies metal
      ensures run.FixedRun? && run.svc == service.id && run.address == service.loadBalancerIP
      ensures ValidRun(cfg, old(metal.inventory), run)
      ensures metal.log == old(metal.log) + RunLog(cfg, old(metal.inventory), run)
      ensures metal.inventory == After(cfg, old(metal.inventory), run)
      ensures r.Ok? <==> Succeeded(cfg, run)
      ensures r.Ok? ==> r.value == service.ingress + [service.loadBalancerIP]
      ensures metal.failedSearches == old(metal.failedSearches) ==> SearchesAnswered(cfg, old(metal.inventory), run)
      ensures metal.failedSearches == old(metal.failedSearches) && InProject(cfg, old(metal.inventory), run.address) ==>
                run.list.Some?
    {
      ghost var inv := metal.inventory;
      var fixedIP, serviceTag := service.loadBalancerIP, ServiceTag(cfg, service.id);
      run := FixedRun(service.id, fixedIP, None, [], NotReached);
      assert metal.log + [] == metal.log;
      var ip := metal.FindProjectIP(cfg.project, fixedIP);
      if ip.Err? { return Err, run; }
      var ips := metal.FindProjectIPsWithTag(cfg.project, serviceTag);
      if ips.Err? { return Err, run; }
      var others := Others(ips.value, fixedIP, inv, Carriers(inv, cfg, serviceTag));
      r, run := SwitchTo(ip.value, others, service);
    }

    /** Takes the tag off the other addresses, and then puts it on the fixed one. */
    method SwitchTo(ip: IPResponse, others: seq<IPResponse>, service: Service)
      returns (r: Result<seq<string>>, ghost run: Run)
      requires ipUpdateMutex && InProject(cfg, metal.inventory, service.loadBalancerIP)
      requires ip == Response(service.loadBalancerIP, metal.inventory[service.loadBalancerIP])
      requires IsListing(others, metal.inventory,
                         Carriers(metal.inventory, cfg, ServiceTag(cfg, service.id)) - {service.loadBalancerIP})
      modifies metal`inventory, metal`log
      ensures run.FixedRun? && run.svc == service.id && run.address == service.loadBalancerIP
      ensures ValidRun(cfg, old(metal.inventory), run)
      ensures metal.log == old(metal.log) + RunLog(cfg, old(metal.inventory), run)
      ensures metal.inventory == After(cfg, old(metal.inventory), run)
      ensures r.Ok? <==> Succeeded(cfg, run)
      ensures r.Ok? ==> r.value == service.ingress + [service.loadBalancerIP]
      ensures run.list.Some? && metal.failedSearches == old(metal.failedSearches)
    {
      ghost var inv := metal.inventory;
      ghost var plan, use;
      var serviceTag, removed := ServiceTag(cfg, service.id), false;
      removed, plan := RemoveServiceTagFromIPs(serviceTag, others);
      ghost var log := DetachAllLog(others, serviceTag, plan, cfg.attempts);
      if !removed {
        run := FixedRun(service.id, service.loadBalancerIP, Some(others), plan, NotReached);
        assert log + [] == log;
        return Err, run;
      }
      var carriers := Carriers(inv, cfg, serviceTag) - {service.loadBalancerIP};
      DetachAllAt(inv, carriers, others, serviceTag, plan, cfg.attempts, service.loadBalancerIP);
      var newIP;
      newIP, use := UseIPInCluster(ip, service);
      run := FixedRun(service.id, service.loadBalancerIP, Some(others), plan, use);
      ReplayConcat(inv, log, UseLog(service.loadBalancerIP, ip.tags, serviceTag, use));
      r := if newIP.Ok? then Ok(service.ingress + [newIP.value.ipaddress.value]) else Err;
    }

    // ---- configuration updates ----

    /** The address is the cluster's to use and lies in a configured network, c is its canonical
        host CIDR, and n is the name of its pool. */
    ghost predicate IsClusterCidr(inv: Inventory, n: string, c: string) {
      exists a :: a in ClusterAddresses(inv, cfg.project, cfg.clusterID, cfg.keys)
                  && inv[a].network.Some? && inv[a].network.value in additionalNetworks && canon(a) == Some(c)
                  && n == ToLower(inv[a].network.value) + if inv[a].iptype == STATIC then "-static" else "-ephemeral"
    }

    /** No configuration can be made: some address of the cluster has no network, or one of the
        configured networks and no canonical form, or some node has no proper ASN. */
    ghost predicate NotConfigurable(inv: Inventory, nodes: seq<Node>) {
      || (exists a :: a in ClusterAddresses(inv, cfg.project, cfg.clusterID, cfg.keys)
                      && (inv[a].network.None?
                          || (inv[a].network.value in additionalNetworks && canon(a).None?)))
      || (exists i :: 0 <= i < |nodes| && !HasASNLabel(nodes[i]))
    }

    ghost function Current(): Resources
      reads metalLB.peers, metalLB.pools, metalLB.advertisements, cilium.policies, cilium.pools
    {
      match loadBalancerType
      case TypeMetalLB => InMetalLB(metalLB.Current())
      case TypeCilium => InCilium(cilium.Current())
    }

    /** Every pool object has the name of a pool, and lists exactly the cluster's CIDRs of this
        pool, each once; there is no empty one. */
    ghost predicate PoolsConfigured(inv: Inventory, pools: map<string, seq<string>>) {
      && (forall n, c :: ListsCidr(pools, n, c) <==> IsClusterCidr(inv, n, c))
      && (forall n :: n in pools ==>
            pools[n] != [] && forall i, j :: 0 <= i < j < |pools[n]| ==> pools[n][i] != pools[n][j])
    }

    /** What a configuration from an inventory and nodes leaves in the cluster: the pools, one
        peer or policy for each ASN of the nodes, from the last such node, and if there are any
        pools one advertisement for each. */
    ghost predicate Configured(inv: Inventory, r: Resources, nodes: seq<Node>) {
      match r
      case InMetalLB(objects) =>
        && PoolsConfigured(inv, map n | n in objects.pools :: objects.pools[n].addresses)
        && (forall n :: n in objects.pools ==> objects.pools[n].autoAssign == Some(false))
        && MetalLB.OnePerNodeASN(objects.peers, nodes)
        && (objects.pools != map[] ==>
              && objects.advertisements.Keys == objects.pools.Keys
              && forall n :: n in objects.pools ==> objects.advertisements[n].ipAddressPools == [n])
      case InCilium(objects) =>
        && PoolsConfigured(inv, map n | n in objects.pools :: Cilium.CidrsOf(objects.pools[n]))
        && Cilium.OnePerNodeASN(objects.policies, nodes)
    }

    /** The calls on custom resources that have failed so far. */
    ghost function Failures(): nat
      reads metalLB.peers, metalLB.pools, metalLB.advertisements, cilium.policies, cilium.pools
    {
      match loadBalancerType
      case TypeMetalLB => metalLB.Failures()
      case TypeCilium => cilium.Failures()
    }

    ghost function Count(): Counters
      reads metal`failedSearches, metalLB.peers, metalLB.pools, metalLB.advertisements
      reads cilium, cilium.policies, cilium.pools, cilium.NodeObjects()
    {
      Counters(metal.failedSearches + Failures(), cilium.Records())
    }

    /** Why a configuration does not get through: a search or a call on a custom resource has
        failed, it cannot be made, or a node cannot be annotated. */
    ghost predicate ConfigTrouble(before: Counters, now: Counters, inv: Inventory, nodes: seq<Node>) {
      || now.failures > before.failures
      || NotConfigurable(inv, nodes)
      || (loadBalancerType.TypeCilium? && Cilium.CannotAnnotate(cilium.nodeList, before.nodes, now.nodes, steps))
    }

    /** From the inventory to the custom resources. Without a failed call, and if a configuration
        can be made, the resources are as configured, whether or not the nodes can be annotated. */
    method UpdateLoadBalancerConfig(nodes: seq<Node>) returns (ok: bool)
      requires Valid() && !configWriteMutex
      modifies this`configWriteMutex, metal`failedSearches, metalLB.peers, metalLB.pools, metalLB.advertisements
      modifies cilium, cilium.policies, cilium.pools, cilium.NodeObjects()
      ensures Valid() && !configWriteMutex
      ensures ok ==> Count().failures == old(Count().failures) && !NotConfigurable(metal.inventory, nodes)
      ensures Count().failures == old(Count().failures) && !NotConfigurable(metal.inventory, nodes) ==>
                Configured(metal.inventory, Current(), nodes)
      ensures ok && loadBalancerType.TypeCilium? ==>
                Cilium.AllAnnotated(cilium.nodeList, old(Count().nodes), Count().nodes)
      ensures ok && loadBalancerType.TypeMetalLB? && metalLB.pools.objects == map[] ==>
                metalLB.advertisements.objects == old(metalLB.advertisements.objects)
      ensures !ok ==> ConfigTrouble(old(Count()), Count(), metal.inventory, nodes)
    {
      configWriteMutex := true;
      NothingElse();
      ok := WriteConfig(nodes);
      label written:
      configWriteMutex := false;
      NothingElse@written();
    }

    /** Taking and giving back a mutex changes nothing else. */
    twostate lemma NothingElse()
      requires unchanged(metal`failedSearches, metalLB.peers, metalLB.pools, metalLB.advertisements)
      requires unchanged(cilium, cilium.policies, cilium.pools, cilium.NodeObjects(), services.Values)
      ensures Count() == old(Count()) && Current() == old(Current())
      ensures forall id :: Record(id) == old(Record(id))
      ensures old(Valid()) ==> Valid()
    {
    }

    method WriteConfig(nodes: seq<Node>) returns (ok: bool)
      requires Valid() && configWriteMutex
      modifies metal`failedSearches, metalLB.peers, metalLB.pools, metalLB.advertisements
      modifies cilium, cilium.policies, cilium.pools, cilium.NodeObjects()
      ensures Valid()
      ensures ok ==> Count().failures == old(Count().failures) && !NotConfigurable(metal.inventory, nodes)
      ensures Count().failures == old(Count().failures) && !NotConfigurable(metal.inventory, nodes) ==>
                Configured(metal.inventory, Current(), nodes)
      ensures ok && loadBalancerType.TypeCilium? ==>
                Cilium.AllAnnotated(cilium.nodeList, old(Count().nodes), Count().nodes)
      ensures ok && loadBalancerType.TypeMetalLB? && metalLB.pools.objects == map[] ==>
                metalLB.advertisements.objects == old(metalLB.advertisements.objects)
      ensures !ok ==> ConfigTrouble(old(Count()), Count(), metal.inventory, nodes)
    {
      var base := ComputeConfig(nodes);
      assert cilium.Records() == old(cilium.Records()) && Failures() == old(Failures());
      ok := false;
      if base.Ok? {
        if loadBalancerType.TypeMetalLB? {
          ok := WriteMetalLB(base.value, nodes);
        } else {
          ok := WriteCilium(base.value, nodes);
        }
      }
    }

    /** Searches for the addresses of the cluster, and makes a configuration of them. */
    method ComputeConfig(nodes: seq<Node>) returns (r: Result<BaseConfig>)
      requires configWriteMutex
      modifies metal`failedSearches
      ensures r.Ok? ==> metal.failedSearches == old(metal.failedSearches) && !NotConfigurable(metal.inventory, nodes)
      ensures r.Err? ==> metal.failedSearches > old(metal.failedSearches) || NotConfigurable(metal.inventory, nodes)
      ensures r.Ok? ==> IsPooled(metal.inventory, r.value) && exists idx :: Corresponds(r.value.peers, nodes, idx)
    {
      var ips := metal.FindClusterIPs(cfg.project, cfg.clusterID, cfg.keys);
      if ips.Err? { return Err; }
      var base := NewBaseConfig(ips.value, additionalNetworks, nodes, canon);
      assert !base.Panicked?;
      ListingFails(metal.inventory, ips.value);
      if base.Failed? { return Err; }
      PeersOfCorrespond(nodes);
      PooledExactly(metal.inventory, ips.value, base.value);
      return Ok(base.value);
    }

    lemma ListingFails(inv: Inventory, ips: seq<IPResponse>)
      requires IsListing(ips, inv, ClusterAddresses(inv, cfg.project, cfg.clusterID, cfg.keys))
      ensures Fails(ips, additionalNetworks, canon)
              <==> exists a :: a in ClusterAddresses(inv, cfg.project, cfg.clusterID, cfg.keys)
                      && (inv[a].network.None?
                          || (inv[a].network.value in additionalNetworks && canon(a).None?))
    {
      if i :| 0 <= i < |ips| && Bad(ips[i], additionalNetworks, canon) {
        assert ips[i] == Response(ips[i].ipaddress.value, inv[ips[i].ipaddress.value]);
      }
      if a :| a in ClusterAddresses(inv, cfg.project, cfg.clusterID, cfg.keys)
              && (inv[a].network.None? || (inv[a].network.value in additionalNetworks && canon(a).None?))
      {
        var i :| 0 <= i < |ips| && ips[i].ipaddress == Some(a);
        assert Bad(ips[i], additionalNetworks, canon);
      }
    }

    /** The pools of a base configuration are those of the inventory. */
    ghost predicate IsPooled(inv: Inventory, base: BaseConfig) {
      && KeyedByName(base)
      && (forall n, c :: InPool(base, n, c) <==> IsClusterCidr(inv, n, c))
      && (forall n :: n in base.addressPools ==> ProperPool(base.addressPools[n]))
    }

    ghost predicate InPool(base: BaseConfig, n: string, c: string) {
      n in base.addressPools && c in base.addressPools[n].cidrs
    }

    predicate ProperPool(pool: AddressPool) {
      && pool.cidrs != [] && pool.autoAssign == Some(false)
      && forall i, j :: 0 <= i < j < |pool.cidrs| ==> pool.cidrs[i] != pool.cidrs[j]
    }

    method WriteMetalLB(base: BaseConfig, ghost nodes: seq<Node>) returns (ok: bool)
      requires configWriteMutex && loadBalancerType.TypeMetalLB?
      requires IsPooled(metal.inventory, base) && exists idx :: Corresponds(base.peers, nodes, idx)
      modifies metalLB.peers, metalLB.pools, metalLB.advertisements
      ensures ok ==> Configured(metal.inventory, Current(), nodes)
      ensures ok && metalLB.pools.objects == map[] ==>
                metalLB.advertisements.objects == old(metalLB.advertisements.objects)
      ensures metalLB.Failures() == old(metalLB.Failures()) + if ok then 0 else 1
    {
      ghost var before := metalLB.Current();
      var config := new MetalLB.Config(base, metalLB);
      ok := config.WriteCRs();
      if ok {
        MetalLBConfigured(metal.inventory, base, before, nodes);
      }
    }

    lemma MetalLBConfigured(inv: Inventory, base: BaseConfig, before: MetalLB.Objects, nodes: seq<Node>)
      requires IsPooled(inv, base) && exists idx :: Corresponds(base.peers, nodes, idx)
      ensures var final := MetalLB.Final(base, before);
              && Configured(inv, InMetalLB(final), nodes)
              && (final.pools == map[] ==> final.advertisements == before.advertisements)
    {
      var idx :| Corresponds(base.peers, nodes, idx);
      MetalLB.FinalPeersOfNodes(base, nodes, idx);
      FinalPools(inv, base, before);
      MetalLB.FinalAdvertisements(base, before);
    }

    lemma FinalPools(inv: Inventory, base: BaseConfig, before: MetalLB.Objects)
      requires IsPooled(inv, base)
      ensures var pools := MetalLB.Final(base, before).pools;
              && PoolsConfigured(inv, map n | n in pools :: pools[n].addresses)
              && forall n :: n in pools ==> pools[n].autoAssign == Some(false)
    {
      var pools := MetalLB.Final(base, before).pools;
      assert pools.Keys == base.addressPools.Keys;
      ThesePools(inv, base, map n | n in pools :: pools[n].addresses);
    }

    lemma ThesePools(inv: Inventory, base: BaseConfig, pools: map<string, seq<string>>)
      requires IsPooled(inv, base) && pools.Keys == base.addressPools.Keys
      requires forall n :: n in pools ==> pools[n] == base.addressPools[n].cidrs
      ensures PoolsConfigured(inv, pools)
    {
      forall n, c ensures ListsCidr(pools, n, c) <==> IsClusterCidr(inv, n, c) {
        assert ListsCidr(pools, n, c) <==> InPool(base, n, c);
      }
      forall n | n in pools ensures ProperPool(base.addressPools[n]) {
      }
    }

    method WriteCilium(base: BaseConfig, ghost nodes: seq<Node>) returns (ok: bool)
      requires Valid() && configWriteMutex && loadBalancerType.TypeCilium?
      requires IsPooled(metal.inventory, base) && exists idx :: Corresponds(base.peers, nodes, idx)
      modifies cilium, cilium.policies, cilium.pools, cilium.NodeObjects()
      ensures Valid()
      ensures ok ==> cilium.Failures() == old(cilium.Failures())
      ensures ok ==> Cilium.AllAnnotated(cilium.nodeList, old(cilium.Records()), cilium.Records())
      ensures !ok ==>
                || cilium.Failures() > old(cilium.Failures())
                || Cilium.CannotAnnotate(cilium.nodeList, old(cilium.Records()), cilium.Records(), steps)
      ensures cilium.Failures() == old(cilium.Failures()) ==> Configured(metal.inventory, Current(), nodes)
    {
      var config := new Cilium.Config(base, cilium, steps);
      ok := config.WriteCRs();
      CiliumConfigured(metal.inventory, base, nodes);
    }

    lemma CiliumConfigured(inv: Inventory, base: BaseConfig, nodes: seq<Node>)
      requires IsPooled(inv, base) && exists idx :: Corresponds(base.peers, nodes, idx)
      ensures Configured(inv, InCilium(Cilium.Final(base)), nodes)
    {
      var final := Cilium.Final(base);
      var idx :| Corresponds(base.peers, nodes, idx);
      Cilium.FinalPoliciesOfNodes(base, nodes, idx);
      assert final.pools.Keys == base.addressPools.Keys;
      forall n | n in final.pools ensures Cilium.CidrsOf(final.pools[n]) == base.addressPools[n].cidrs {
        Cilium.BlocksAreCidrs(base.addressPools[n]);
      }
      ThesePools(inv, base, map n | n in final.pools :: Cilium.CidrsOf(final.pools[n]));
    }

    /** The pools computed from a listing of the cluster's addresses are the cluster's. */
    lemma PooledExactly(inv: Inventory, ips: seq<IPResponse>, base: BaseConfig)
      requires IsListing(ips, inv, ClusterAddresses(inv, cfg.project, cfg.clusterID, cfg.keys))
      requires KeyedByName(base) && base.addressPools == PoolsOf(Places(ips, additionalNetworks, canon))
      ensures IsPooled(inv, base)
    {
      forall n, c ensures InPool(base, n, c) <==> IsClusterCidr(inv, n, c) {
        if InPool(base, n, c) {
          PooledIsListed(inv, ips, base, n, c);
        }
        if IsClusterCidr(inv, n, c) {
          ListedIsPooled(inv, ips, base, n, c);
        }
      }
      forall n | n in base.addressPools ensures ProperPool(base.addressPools[n]) {
        PoolsExact(ips, additionalNetworks, canon, n, "");
      }
    }

    lemma PoolNameText(a: string, r: IPRecord)
      requires r.network.Some?
      ensures PoolOf(Response(a, r))
              == ToLower(r.network.value) + if r.iptype == STATIC then "-static" else "-ephemeral"
    {
      assert "-" + STATIC == "-static" && "-" + EPHEMERAL == "-ephemeral";
    }

    lemma PooledIsListed(inv: Inventory, ips: seq<IPResponse>, base: BaseConfig, n: string, c: string)
      requires IsListing(ips, inv, ClusterAddresses(inv, cfg.project, cfg.clusterID, cfg.keys))
      requires base.addressPools == PoolsOf(Places(ips, additionalNetworks, canon)) && InPool(base, n, c)
      ensures IsClusterCidr(inv, n, c)
    {
      PoolsExact(ips, additionalNetworks, canon, n, c);
      var ip :| ip in ips && InNetworks(ip, additionalNetworks) && Cidr(ip, canon) == Some(c) && PoolOf(ip) == n;
      assert ip == Response(ip.ipaddress.value, inv[ip.ipaddress.value]);
      PoolNameText(ip.ipaddress.value, inv[ip.ipaddress.value]);
    }

    lemma ListedIsPooled(inv: Inventory, ips: seq<IPResponse>, base: BaseConfig, n: string, c: string)
      requires IsListing(ips, inv, ClusterAddresses(inv, cfg.project, cfg.clusterID, cfg.keys))
      requires base.addressPools == PoolsOf(Places(ips, additionalNetworks, canon)) && IsClusterCidr(inv, n, c)
      ensures InPool(base, n, c)
    {
      var a :| a in ClusterAddresses(inv, cfg.project, cfg.clusterID, cfg.keys)
               && inv[a].network.Some? && inv[a].network.value in additionalNetworks && canon(a) == Some(c)
               && n == ToLower(inv[a].network.value) + if inv[a].iptype == STATIC then "-static" else "-ephemeral";
      var i :| 0 <= i < |ips| && ips[i].ipaddress == Some(a);
      assert ips[i] in ips && ips[i] == Response(a, inv[a]);
      PoolNameText(a, inv[a]);
      PoolsExact(ips, additionalNetworks, canon, n, c);
    }

    // ---- fresh addresses ----

    ghost function Record(id: ServiceName): ServiceRecord
      reads services.Values
    {
      if id in services then
        assert services[id] in services.Values;
        Known(services[id].history, services[id].refusals)
      else Unknown
    }

    /** Why a service cannot be written: it is unknown, a call of ours was refused, or others
        wrote it as often as we try. */
    ghost predicate ServiceTrouble(before: ServiceRecord, now: ServiceRecord) {
      before.Unknown? || now.Unknown?
      || now.refusals > before.refusals || |now.history| >= |before.history| + steps
    }

    /** Writes the address into the service, and nothing else of it. */
    method SetServiceIP(id: ServiceName, ip: string) returns (ok: bool)
      requires Valid() && ipAllocateMutex
      modifies services.Values
      ensures Valid()
      ensures !ok ==> ServiceTrouble(old(Record(id)), Record(id))
      ensures ok ==> StoredAs(Record(id), ip)
                     && var h := Record(id).history;
                        |h| >= 2 && h[|h| - 1].value.rest == h[|h| - 2].value.rest
      ensures !ok ==> OnlyOthers(old(Record(id)), Record(id))
    {
      if id !in services { return false; }
      assert services[id] in services.Values;
      var outcome, attempts := RetryOnConflict(services[id], steps, SetLoadBalancerIP(ip));
      ok := outcome.Stored?;
    }

    /** Clears the tags of the fresh address and frees it, as far as the calls succeed. */
    method Rollback(ip: string) returns (ghost end: Acquisition)
      requires ipAllocateMutex
      modifies metal`inventory, metal`log
      ensures end.RolledBack?
      ensures metal.log == old(metal.log) + RollbackLog(ip, end)
      ensures if end.cleared then
                metal.log == old(metal.log) + [Attempt(Update(ip, []), true), Attempt(Free(ip), end.freed)]
              else metal.log == old(metal.log) + [Attempt(Update(ip, []), false)]
      ensures metal.inventory == Replay(old(metal.inventory), RollbackLog(ip, end))
    {
      ghost var before := metal.inventory;
      var cleared := metal.UpdateIP(ip, []);
      ghost var first := [Attempt(Update(ip, []), cleared.Ok?)];
      ReplaySnoc(before, [], first[0]);
      assert [] + first == first;
      if cleared.Err? {
        assert first + [] == first;
        return RolledBack(false, false);
      }
      var freed := metal.FreeIP(ip);
      ReplaySnoc(before, first, Attempt(Free(ip), freed));
      return RolledBack(true, freed);
    }

    /** An acquisition run, under the mutex. A rollback takes back the acquisition, but not what
        was written into the service. */
    method EnsureAuto(service: Service, nodes: seq<Node>)
      returns (r: Result<seq<string>>, ghost run: Run, ghost stored: bool)
      requires Valid() && ipAllocateMutex && !configWriteMutex
      modifies this`configWriteMutex, metal, metalLB.peers, metalLB.pools, metalLB.advertisements
      modifies cilium, cilium.policies, cilium.pools, cilium.NodeObjects(), services.Values
      ensures Valid() && !configWriteMutex
      ensures run.AutoRun? && run.svc == service.id && ValidRun(cfg, old(metal.inventory), run)
      ensures metal.log == old(metal.log) + RunLog(cfg, old(metal.inventory), run)
      ensures metal.inventory == After(cfg, old(metal.inventory), run)
      ensures service.ingress != [] ==> run.end.NotTried? && r == Ok(service.ingress)
      ensures service.ingress == [] ==> (r.Ok? <==> run.end.Acquired?) && (r.Ok? ==> r.value == [run.address])
      ensures !run.end.NotTried? ==> AcquisitionNetwork(service, defaultExternalNetworkID) == Some(run.network)
      ensures run.end.NotTried? && service.ingress == [] ==>
                AcquisitionNetwork(service, defaultExternalNetworkID).None?
      ensures if stored then StoredAs(Record(service.id), run.address)
              else OnlyOthers(old(Record(service.id)), Record(service.id))
      ensures r.Ok? && service.ingress == [] ==> stored && Configured(metal.inventory, Current(), nodes)
      ensures run.end.RolledBack? ==>
                || ServiceTrouble(old(Record(service.id)), Record(service.id))
                || ConfigTrouble(old(Count()), Count(), After(cfg, old(metal.inventory), run.(end := Acquired)), nodes)
      ensures run.end == RolledBack(true, true) ==>
                run.address !in metal.inventory && metal.inventory == old(metal.inventory)
    {
      ghost var inv := metal.inventory;
      run := AutoRun(service.id, "", "", NotTried);
      assert metal.log + [] == metal.log;
      stored := false;
      if |service.ingress| > 0 { return Ok(service.ingress), run, stored; }
      var ip;
      ip, run := AcquireIP(service);
      NothingElse();
      if ip.Err? { return Err, run, stored; }
      ghost var end;
      var published;
      published, end, stored := PublishOrRollBack(service, ip.value, nodes);
      r := if published then Ok([ip.value]) else Err;
      if !published {
        RollbackContinues(inv, old(metal.log), run, end);
        run := run.(end := end);
        RollbackRestores(cfg, inv, run);
      }
    }

    method PublishOrRollBack(service: Service, ip: string, nodes: seq<Node>)
      returns (ok: bool, ghost end: Acquisition, ghost stored: bool)
      requires Valid() && ipAllocateMutex && !configWriteMutex
      modifies this`configWriteMutex, metal, metalLB.peers, metalLB.pools, metalLB.advertisements
      modifies cilium, cilium.policies, cilium.pools, cilium.NodeObjects(), services.Values
      ensures Valid() && !configWriteMutex && end.RolledBack?
      ensures var log := if ok then [] else RollbackLog(ip, end);
              metal.log == old(metal.log) + log && metal.inventory == Replay(old(metal.inventory), log)
      ensures ok ==> stored && Configured(metal.inventory, Current(), nodes)
      ensures !ok ==>
                || ServiceTrouble(old(Record(service.id)), Record(service.id))
                || ConfigTrouble(old(Count()), Count(), old(metal.inventory), nodes)
      ensures if stored then StoredAs(Record(service.id), ip)
              else OnlyOthers(old(Record(service.id)), Record(service.id))
    {
      end := RolledBack(false, false);
      ok, stored := Publish(service, ip, nodes);
      if !ok {
        label published:
        end := Rollback(ip);
        NothingElse@published();
      }
    }

    /** Acquires an address from the network of the annotated pool, or from the default one. */
    method AcquireIP(service: Service) returns (r: Result<string>, ghost run: Run)
      requires ipAllocateMutex
      modifies metal`inventory, metal`log
      ensures run.AutoRun? && run.svc == service.id && ValidRun(cfg, old(metal.inventory), run)
      ensures metal.log == old(metal.log) + RunLog(cfg, old(metal.inventory), run)
      ensures metal.inventory == After(cfg, old(metal.inventory), run)
      ensures if r.Ok? then run.end.Acquired? && r.value == run.address else run.end.NotTried? || run.end.NotAllocated?
      ensures if run.end.NotTried? then AcquisitionNetwork(service, defaultExternalNetworkID).None?
              else AcquisitionNetwork(service, defaultExternalNetworkID) == Some(run.network)
      ensures !run.end.NotTried? ==>
                metal.log == old(metal.log)
                  + [Attempt(Allocate(run.address, IPRecord(cfg.project, Some(run.network), "ephemeral",
                                                            [ServiceTag(cfg, service.id)])), r.Ok?)]
      ensures SPECIFIC_ADDRESS_POOL in service.annotations ==>
                !run.end.NotTried? && run.network == NetworkOfPool(service.annotations[SPECIFIC_ADDRESS_POOL])
      ensures SPECIFIC_ADDRESS_POOL !in service.annotations && defaultExternalNetworkID != "" ==>
                !run.end.NotTried? && run.network == NetworkOfPool(defaultExternalNetworkID)
      ensures SPECIFIC_ADDRESS_POOL !in service.annotations && defaultExternalNetworkID == "" ==>
                run.end.NotTried? && metal.log == old(metal.log)
    {
      ghost var inv := metal.inventory;
      run := AutoRun(service.id, "", "", NotTried);
      assert metal.log + [] == metal.log;
      var network := AcquisitionNetwork(service, defaultExternalNetworkID);
      if network.None? { return Err, run; }
      ghost var address;
      r, address := metal.AllocateIP(cfg.project, network.value, ServiceTag(cfg, service.id));
      run := AutoRun(service.id, network.value, address, if r.Ok? then Acquired else NotAllocated);
      AcquisitionEffect(inv, address, FreshRecord(cfg, run), run.end);
    }

    /** Makes the address known, in the service and in the configuration. */
    method Publish(service: Service, ip: string, nodes: seq<Node>) returns (ok: bool, ghost stored: bool)
      requires Valid() && ipAllocateMutex && !configWriteMutex
      modifies this`configWriteMutex, metal`failedSearches, metalLB.peers, metalLB.pools, metalLB.advertisements
      modifies cilium, cilium.policies, cilium.pools, cilium.NodeObjects(), services.Values
      ensures Valid() && !configWriteMutex
      ensures ok ==> stored && Configured(metal.inventory, Current(), nodes)
      ensures !ok ==>
                || ServiceTrouble(old(Record(service.id)), Record(service.id))
                || ConfigTrouble(old(Count()), Count(), metal.inventory, nodes)
      ensures if stored then StoredAs(Record(service.id), ip)
              else OnlyOthers(old(Record(service.id)), Record(service.id))
    {
      ok := SetServiceIP(service.id, ip);
      stored := ok;
      OnlyServices();
      if ok {
        ok := UpdateLoadBalancerConfig(nodes);
      }
    }

    /** Writing services leaves everything else as it was. */
    twostate lemma OnlyServices()
      requires unchanged(metal`failedSearches, metalLB.peers, metalLB.pools, metalLB.advertisements)
      requires unchanged(cilium, cilium.policies, cilium.pools, cilium.NodeObjects())
      ensures Count() == old(Count())
    {
    }

    /** An acquisition and then a rollback are one run that was rolled back. */
    lemma RollbackContinues(inv: Inventory, sent: seq<Attempt>, run: Run, end: Acquisition)
      requires run.AutoRun? && run.end.Acquired? && ValidRun(cfg, inv, run) && end.RolledBack?
      ensures var rolledBack, rest := run.(end := end), RollbackLog(run.address, end);
              && ValidRun(cfg, inv, rolledBack)
              && sent + RunLog(cfg, inv, rolledBack) == sent + RunLog(cfg, inv, run) + rest
              && After(cfg, inv, rolledBack) == Replay(After(cfg, inv, run), rest)
    {
      var first, rest := RunLog(cfg, inv, run), RollbackLog(run.address, end);
      assert RunLog(cfg, inv, run.(end := end)) == first + rest;
      ReplayConcat(inv, first, rest);
      ConcatAssociative(sent, first, rest);
    }

    method EnsureFresh(service: Service, nodes: seq<Node>) returns (r: Result<seq<string>>, ghost run: Run)
      requires Valid() && AllUnlocked()
      modifies this, metal, metalLB.peers, metalLB.pools, metalLB.advertisements
      modifies cilium, cilium.policies, cilium.pools, cilium.NodeObjects(), services.Values
      ensures Valid() && AllUnlocked()
      ensures run.AutoRun? && run.svc == service.id && ValidRun(cfg, old(metal.inventory), run)
      ensures metal.log == old(metal.log) + RunLog(cfg, old(metal.inventory), run)
      ensures metal.inventory == After(cfg, old(metal.inventory), run)
      ensures service.ingress != [] ==> run.end.NotTried? && r == Ok(service.ingress)
      ensures service.ingress == [] ==> (r.Ok? <==> run.end.Acquired?) && (r.Ok? ==> r.value == [run.address])
      ensures run.end.NotTried? && service.ingress == [] ==>
                AcquisitionNetwork(service, defaultExternalNetworkID).None?
      ensures r.Ok? && service.ingress == [] ==>
                Configured(metal.inventory, Current(), nodes) && StoredAs(Record(service.id), run.address)
      ensures run.end.RolledBack? ==>
                || ServiceTrouble(old(Record(service.id)), Record(service.id))
                || ConfigTrouble(old(Count()), Count(), After(cfg, old(metal.inventory), run.(end := Acquired)), nodes)
    {
      ghost var stored;
      ipAllocateMutex := true;
      NothingElse();
      r, run, stored := EnsureAuto(service, nodes);
      label done:
      ipAllocateMutex := false;
      NothingElse@done();
    }


    /** Ensures a load balancer. With a fixed address this is a fixed-address run, otherwise an
        acquisition, and none at all if the service already has an address. Every exit has
        released the mutexes. */
    method EnsureLoadBalancer(service: Service, nodes: seq<Node>) returns (r: Result<seq<string>>, ghost run: Run)
      requires Valid() && AllUnlocked()
      modifies this, metal, metalLB.peers, metalLB.pools, metalLB.advertisements
      modifies cilium, cilium.policies, cilium.pools, cilium.NodeObjects(), services.Values
      ensures Valid() && AllUnlocked()
      ensures run.svc == service.id && ValidRun(cfg, old(metal.inventory), run)
      ensures metal.log == old(metal.log) + RunLog(cfg, old(metal.inventory), run)
      ensures metal.inventory == After(cfg, old(metal.inventory), run)
      ensures service.loadBalancerIP != "" ==>
                && run.FixedRun? && run.address == service.loadBalancerIP
                && (r.Ok? <==> Succeeded(cfg, run)) && (r.Ok? ==> r.value == service.ingress + [service.loadBalancerIP])
      ensures service.loadBalancerIP == "" ==> run.AutoRun?
      ensures service.loadBalancerIP == "" && service.ingress != [] ==> run.end.NotTried? && r == Ok(service.ingress)
      ensures service.loadBalancerIP == "" && service.ingress == [] ==>
                (r.Ok? <==> Succeeded(cfg, run)) && (r.Ok? ==> r.value == [run.address])
      ensures run.FixedRun? && metal.failedSearches == old(metal.failedSearches) ==>
                && SearchesAnswered(cfg, old(metal.inventory), run)
                && (InProject(cfg, old(metal.inventory), run.address) ==> run.list.Some?)
      ensures run.AutoRun? && run.end.NotTried? && service.ingress == [] ==>
                AcquisitionNetwork(service, defaultExternalNetworkID).None?
      ensures r.Ok? && service.loadBalancerIP == "" && service.ingress == [] ==>
                && Configured(metal.inventory, Current(), nodes)
                && StoredAs(Record(service.id), run.address)
      ensures run.AutoRun? && run.end.RolledBack? ==>
                || ServiceTrouble(old(Record(service.id)), Record(service.id))
                || ConfigTrouble(old(Count()), Count(), After(cfg, old(metal.inventory), run.(end := Acquired)), nodes)
    {
      if service.loadBalancerIP != "" {
        r, run := EnsureFixed(service);
      } else {
        r, run := EnsureFresh(service, nodes);
      }
    }
  }
}
