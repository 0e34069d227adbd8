/** The remote IP inventory and the calls the controller makes on it (pkg/resources/metal/ip.go). */
module Metal {
  import opened Wrappers
  import opened Tags

  const EPHEMERAL := "ephemeral"
  const STATIC := "static"

  /** What the inventory stores under an address. */
  datatype IPRecord = IPRecord(project: string, network: Option<string>, iptype: string, tags: seq<string>)

  type Inventory = map<string, IPRecord>

  /** What a call answers; every field but the tags may be missing. */
  datatype IPResponse = IPResponse(ipaddress: Option<string>, networkid: Option<string>,
                                   iptype: Option<string>, tags: seq<string>)

  function Response(address: string, r: IPRecord): IPResponse {
    IPResponse(Some(address), r.network, Some(r.iptype), r.tags)
  }

  // ---- changing calls, and what a log of them does to an inventory ----

  datatype Call =
    | Update(address: string, tags: seq<string>)
    | Free(address: string)
    | Allocate(address: string, record: IPRecord)

  /** A call that was sent, and whether it succeeded. */
  datatype Attempt = Attempt(call: Call, ok: bool)

  function Effect(inv: Inventory, call: Call): Inventory {
    match call
    case Update(a, tags) => if a in inv then inv[a := inv[a].(tags := tags)] else inv
    case Free(a) => inv - {a}
    case Allocate(a, r) => inv[a := r]
  }

  /** A failed call has no effect. */
  function Replay(inv: Inventory, log: seq<Attempt>): Inventory {
    if log == [] then inv
    else
      var before := Replay(inv, log[..|log| - 1]);
      var last := log[|log| - 1];
      if last.ok then Effect(before, last.call) else before
  }

  lemma ReplaySnoc(inv: Inventory, log: seq<Attempt>, e: Attempt)
    ensures Replay(inv, log + [e]) == if e.ok then Effect(Replay(inv, log), e.call) else Replay(inv, log)
  {
    assert (log + [e])[..|log|] == log;
  }

  lemma {:induction false} ReplayConcat(inv: Inventory, log: seq<Attempt>, more: seq<Attempt>)
    ensures Replay(inv, log + more) == Replay(Replay(inv, log), more)
  {
    if more == [] {
      assert log + more == log;
    } else {
      var front := more[..|more| - 1];
      ReplayConcat(inv, log, front);
      assert (log + more)[..|log + more| - 1] == log + front;
    }
  }

  // ---- searching ----

  datatype Query = Query(project: string, address: Option<string>, tag: Option<string>)

  function Selected(inv: Inventory, q: Query): set<string> {
    set a | a in inv && inv[a].project == q.project
            && (q.address.Some? ==> a == q.address.value)
            && (q.tag.Some? ==> q.tag.value in inv[a].tags)
  }

  /** `ips` lists the chosen addresses of the inventory, each once, in any order. */
  ghost predicate IsListing(ips: seq<IPResponse>, inv: Inventory, chosen: set<string>)
  {
    && chosen <= inv.Keys
    && (forall i :: 0 <= i < |ips| ==>
          ips[i].ipaddress.Some? && ips[i].ipaddress.value in chosen
          && ips[i] == Response(ips[i].ipaddress.value, inv[ips[i].ipaddress.value]))
    && (forall i, j :: 0 <= i < j < |ips| ==> ips[i].ipaddress != ips[j].ipaddress)
    && (forall a :: a in chosen ==> exists i :: 0 <= i < |ips| && ips[i].ipaddress == Some(a))
  }

  predicate Lists(ips: seq<IPResponse>, a: string) {
    exists i :: 0 <= i < |ips| && ips[i].ipaddress == Some(a)
  }

  lemma ListsChosen(ips: seq<IPResponse>, inv: Inventory, chosen: set<string>)
    requires IsListing(ips, inv, chosen)
    ensures forall a :: Lists(ips, a) <==> a in chosen
  {
    forall a ensures Lists(ips, a) <==> a in chosen {
    }
  }

  /** An address of the cluster that services may use: some tag names the cluster,
      and none reserves the address for a machine or for egress. */
  predicate UsableInCluster(tags: seq<string>, clusterID: string, keys: ReservedKeys) {
    !Reserved(tags, keys) && exists i :: 0 <= i < |tags| && IsMemberOfCluster(tags[i], clusterID)
  }

  function ClusterAddresses(inv: Inventory, project: string, clusterID: string, keys: ReservedKeys): set<string> {
    set a | a in inv && inv[a].project == project && UsableInCluster(inv[a].tags, clusterID, keys)
  }

  lemma SecondDiffers(ips: seq<IPResponse>, inv: Inventory, chosen: set<string>)
    requires IsListing(ips, inv, chosen) && |ips| > 1
    ensures ips[1].ipaddress.Some? && ips[1].ipaddress.value in chosen
    ensures ips[0].ipaddress.Some? && ips[0].ipaddress.value in chosen
    ensures ips[0].ipaddress != ips[1].ipaddress
  {
  }

  lemma AtMostOne(ips: seq<IPResponse>, inv: Inventory, chosen: set<string>, a: string)
    requires IsListing(ips, inv, chosen) && chosen <= {a}
    ensures |ips| == if a in chosen then 1 else 0
  {
    assert |ips| > 0 ==> ips[0].ipaddress.value in chosen;
    if |ips| > 1 {
      SecondDiffers(ips, inv, chosen);
      assert false;
    }
    if a in chosen {
      var i :| 0 <= i < |ips| && ips[i].ipaddress == Some(a);
    }
  }

  /** The metal API client. Every call may fail, and then changes nothing. */
  class MetalService {
    var inventory: Inventory
    ghost var log: seq<Attempt>  // every changing call sent so far
    ghost var failedSearches: nat

    method FindIPs(q: Query) returns (r: Result<seq<IPResponse>>)
      modifies this`failedSearches
      ensures r.Ok? ==> IsListing(r.value, inventory, Selected(inventory, q))
      ensures failedSearches == old(failedSearches) + if r.Err? then 1 else 0
    {
      var failed: bool := *;
      if failed {
        failedSearches := failedSearches + 1;
        return Err;
      }
      var chosen := Selected(inventory, q);
      var rest, ips := chosen, [];
      while rest != {}
        invariant rest <= chosen
        invariant IsListing(ips, inventory, chosen - rest) && failedSearches == old(failedSearches)
      {
        var a :| a in rest;
        ListingSnoc(ips, inventory, chosen - rest, Response(a, inventory[a]));
        assert chosen - (rest - {a}) == chosen - rest + {a};
        ips, rest := ips + [Response(a, inventory[a])], rest - {a};
      }
      assert chosen - rest == chosen;
      return Ok(ips);
    }

    /** The addresses of the project that belong to the cluster and are not reserved. */
    method FindClusterIPs(project: string, clusterID: string, keys: ReservedKeys) returns (r: Result<seq<IPResponse>>)
      modifies this`failedSearches
      ensures r.Ok? ==> IsListing(r.value, inventory, ClusterAddresses(inventory, project, clusterID, keys))
      ensures r.Ok? ==>
                forall a :: Lists(r.value, a) <==>
                  && a in inventory && inventory[a].project == project
                  && (forall j :: 0 <= j < |inventory[a].tags| ==>
                        Key(inventory[a].tags[j]) != keys.machineID && Key(inventory[a].tags[j]) != keys.clusterEgress)
                  && (exists j :: 0 <= j < |inventory[a].tags| && IsMemberOfCluster(inventory[a].tags[j], clusterID))
      ensures failedSearches == old(failedSearches) + if r.Err? then 1 else 0
    {
      var resp := FindIPs(Query(project, None, None));
      if resp.Err? { return Err; }
      var payload, result := resp.value, [];
      ghost var seen: set<string> := {};
      for n := 0 to |payload|
        invariant failedSearches == old(failedSearches)
        invariant seen == set i | 0 <= i < n :: payload[i].ipaddress.value
        invariant IsListing(result, inventory, ClusterAddresses(inventory, project, clusterID, keys) * seen)
      {
        var i := payload[n];
        ghost var a := i.ipaddress.value;
        ghost var before := ClusterAddresses(inventory, project, clusterID, keys) * seen;
        ghost var after := ClusterAddresses(inventory, project, clusterID, keys) * (seen + {a});
        assert a !in seen;
        seen := seen + {a};
        if HasKey(i.tags, keys.clusterEgress) || HasKey(i.tags, keys.machineID) {
          assert after == before;
          continue;
        }
        var member := false;
        for t := 0 to |i.tags|
          invariant !member && forall k :: 0 <= k < t ==> !IsMemberOfCluster(i.tags[k], clusterID)
        {
          if IsMemberOfCluster(i.tags[t], clusterID) {
            member := true;
            break;
          }
        }
        if member {
          assert after == before + {a};
          ListingSnoc(result, inventory, before, i);
          result := result + [i];
        } else {
          assert after == before;
        }
      }
      ghost var all := ClusterAddresses(inventory, project, clusterID, keys);
      assert all * seen == all by {
        forall a | a in all ensures a in seen {
          assert a in Selected(inventory, Query(project, None, None));
          var i :| 0 <= i < |payload| && payload[i].ipaddress == Some(a);
        }
      }
      ListsChosen(result, inventory, all);
      return Ok(result);
    }

    /** The one response the search for an address must give. */
    method FindProjectIP(project: string, ip: string) returns (r: Result<IPResponse>)
      modifies this`failedSearches
      ensures failedSearches >= old(failedSearches)
      ensures r.Err? && failedSearches == old(failedSearches) ==> !(ip in inventory && inventory[ip].project == project)
      ensures r.Ok? ==> ip in inventory && inventory[ip].project == project && r.value == Response(ip, inventory[ip])
    {
      var resp := FindIPs(Query(project, Some(ip), None));
      if resp.Err? { return Err; }
      AtMostOne(resp.value, inventory, Selected(inventory, Query(project, Some(ip), None)), ip);
      if |resp.value| != 1 { return Err; }
      return Ok(resp.value[0]);
    }

    method FindProjectIPsWithTag(project: string, tag: string) returns (r: Result<seq<IPResponse>>)
      modifies this`failedSearches
      ensures failedSearches == old(failedSearches) + if r.Err? then 1 else 0
      ensures r.Ok? ==> IsListing(r.value, inventory, Selected(inventory, Query(project, None, Some(tag))))
      ensures r.Ok? ==>
                forall a :: Lists(r.value, a) <==>
                  a in inventory && inventory[a].project == project && tag in inventory[a].tags
    {
      r := FindIPs(Query(project, None, Some(tag)));
      if r.Ok? {
        ListsChosen(r.value, inventory, Selected(inventory, Query(project, None, Some(tag))));
      }
    }

    method FreeIP(ip: string) returns (ok: bool)
      modifies this`inventory, this`log
      ensures ok ==> ip in old(inventory)
      ensures log == old(log) + [Attempt(Free(ip), ok)]
      ensures inventory == if ok then old(inventory) - {ip} else old(inventory)
    {
      ok := *;
      if ip !in inventory { ok := false; }
      if ok { inventory := inventory - {ip}; }
      log := log + [Attempt(Free(ip), ok)];
    }

    /** Acquires an ephemeral address that was not in use, tagged for the service. */
    method AllocateIP(project: string, network: string, serviceTag: string)
      returns (r: Result<string>, ghost address: string)
      modifies this`inventory, this`log
      ensures r.Ok? ==> r.value == address && address !in old(inventory)
      ensures r.Ok? ==>
                inventory == old(inventory)[address := IPRecord(project, Some(network), EPHEMERAL, [serviceTag])]
      ensures var call := Allocate(address, IPRecord(project, Some(network), EPHEMERAL, [serviceTag]));
              && log == old(log) + [Attempt(call, r.Ok?)]
              && inventory == if r.Ok? then Effect(old(inventory), call) else old(inventory)
    {
      var candidate: string := *;
      var ok: bool := *;
      if candidate in inventory { ok := false; }
      var record := IPRecord(project, Some(network), EPHEMERAL, [serviceTag]);
      if ok { inventory := inventory[candidate := record]; }
      log := log + [Attempt(Allocate(candidate, record), ok)];
      address := candidate;
      r := if ok then Ok(candidate) else Err;
    }

    method UpdateIP(ip: string, tags: seq<string>) returns (r: Result<IPResponse>)
      modifies this`inventory, this`log
      ensures r.Ok? ==> ip in inventory && r.value == Response(ip, inventory[ip])
      ensures r.Ok? ==> ip in old(inventory) && inventory == old(inventory)[ip := old(inventory)[ip].(tags := tags)]
      ensures r.Err? ==> inventory == old(inventory)
      ensures log == old(log) + [Attempt(Update(ip, tags), r.Ok?)]
      ensures inventory == if r.Ok? then Effect(old(inventory), Update(ip, tags)) else old(inventory)
    {
      var ok: bool := *;
      if ip !in inventory { ok := false; }
      if ok { inventory := inventory[ip := inventory[ip].(tags := tags)]; }
      log := log + [Attempt(Update(ip, tags), ok)];
      r := if ok then Ok(Response(ip, inventory[ip])) else Err;
    }
  }

  lemma ListingSnoc(ips: seq<IPResponse>, inv: Inventory, chosen: set<string>, next: IPResponse)
    requires IsListing(ips, inv, chosen)
    requires next.ipaddress.Some? && next.ipaddress.value in inv && next.ipaddress.value !in chosen
    requires next == Response(next.ipaddress.value, inv[next.ipaddress.value])
    ensures IsListing(ips + [next], inv, chosen + {next.ipaddress.value})
  {
    var longer := ips + [next];
    forall a | a in chosen + {next.ipaddress.value}
      ensures exists i :: 0 <= i < |longer| && longer[i].ipaddress == Some(a)
    {
      if a in chosen {
        var i :| 0 <= i < |ips| && ips[i].ipaddress == Some(a);
        assert longer[i].ipaddress == Some(a);
      } else {
        assert longer[|ips|].ipaddress == Some(a);
      }
    }
  }
}
