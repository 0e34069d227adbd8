# Load balancer addresses of metal-ccm, modelled and verified

The cloud controller manager of metal-stack gives every Kubernetes service of type load
balancer an IP address, and tells the load balancer in the cluster (MetalLB or Cilium) about it.
Addresses live in a remote inventory that other clusters and other tools use as well. A *service
tag* on an address is a reference: an address that the controller acquired is there as long as
some service's tag is on it, and the last service to leave frees it. Fixed addresses can be
shared by services and switched between them. Every remote call may fail, several goroutines run
these operations at once, and the configuration in the cluster is written by sweeping over what
is there.

This project models that code in Dafny and proves what it guarantees: over every run, for every
failing call, and over every interleaving of threads.

## How the model is built

- **The inventory** (`Metal.dfy`) is a class with a map from addresses to records. Every changing
  call has a nondeterministic outcome; a failed call changes nothing. A ghost log records every
  call that was sent, so that "what is sent" and "what it does" can both be specified. Failed
  searches and failed calls on custom resources are counted, so that contracts can also say what
  happens if nothing fails.
- **Operations** (`Controller.dfy`) are the methods of the controller class, with its loops,
  retries, mutex fields and the tag slice that is compacted in place. A method that sends calls
  requires its mutex to be held, and cannot change that field. Each is proved to perform
  one of the *runs* of `Lifecycle.dfy`: a run says what an operation saw, which calls failed and
  what it sent, and `RunEffect` gives its meaning address by address. The theorems about
  ownership, recovery and rollback (`Detach.dfy`, `Recovery.dfy`, `Ownership.dfy`) are about runs
  and sequences of runs, and so about the methods.
- **Threads** (`UpdateMutex.dfy`, `Mutexes.dfy`) are state machines at the granularity of single
  API calls. In the first one every thread keeps the responses it has read, acquisitions happen
  beside the update mutex, and the finished operations are the same runs again. In the second one
  all three mutexes are there: a thread goes through its operation with every early return, can
  do nothing while it waits for a mutex, and leaves a section only when its work is done or a
  call of its own has failed; what its inventory calls ask for is arbitrary.
- **Configuration** (`Pools.dfy`, `Peers.dfy`, `BaseConfigs.dfy`, `Reconcile.dfy`, `MetalLB.dfy`,
  `Cilium.dfy`) turns addresses and nodes into pools and peers, and drives one collection of
  custom resources after the other to them. Lists of objects and iterations over Go maps come in
  an arbitrary order; every result is proved for all orders.
- **Optimistic updates** (`Optimistic.dfy`) are objects with versions that others may write
  between any two of our calls.

Assumed of what lies outside: a search returns exactly the matching addresses, each once, in any
order; an update replaces the tags; an allocated address was not in use; a failed call has no
effect; an update in Kubernetes is accepted only against the current version; the resources of
a load balancer are written by this controller alone. The key of a tag is the text before its
first '='. The two tag keys that reserve an address for a machine or for egress are constants of
another library and stand for any two non-blank texts other than the key of service tags. Parsing
and printing an address is any partial function from texts to host CIDRs. The number of attempts
of a retry is a parameter.

## What turned out to be false, and when exactly it holds

- *An unused ephemeral address is freed by a delete.* Not if the first FreeIP fails: the retry
  works on the slice that the first attempt has compacted and cleared, finds blank tags, and
  sends those instead (`FailedFreeLeavesBlankTag`). It is freed exactly if its first attempt
  succeeds (`DeleteFreesExactly`).
- *IsMemberOfCluster holds when the cluster ID matches*, as its comment says. The code tests a
  prefix, and tags with a second '=' never match (`MemberIff`); for IDs of the same length the
  comment is right (`MemberOfOwnClusterOnly`).
- *Rolling back restores the state before.* It restores the inventory exactly if its own two
  calls succeed (`RollbackRestores`), but the service goes on asking for the address exactly if
  that was stored in it (`EnsureAuto`), and can then no longer be ensured (`RollbackRestores`).
- *A freshly acquired address is not used for anything else*, as a comment in the rollback says.
  The rollback runs outside the update mutex, so that another service can have been attached to
  the address, and then loses it (`RollbackTakesAttachedAddress`). It takes the address from no
  other service exactly if the address has no tag but the acquirer's when it is cleared, and again
  when it is freed (`RollbackTakesNothingIff`).
- *The ASN can safely be cast to 32 bits*, as a comment says. The label may hold any 64-bit
  number, and then the annotation and the policy disagree, exactly outside 0 to 2^32-1
  (`AnnotationNamesPolicyASN`); 2^32 is the first such label (`LargeLabelDisagrees`).
- *A pool name gives back its network.* Exactly for lower-case networks without an ephemeral
  suffix of their own, and never for static pools (`NetworkOfEphemeralPool`, `NetworkLost`,
  `StaticPoolIsNotTrimmed`).
- *A second write changes nothing.* It never deletes or creates, but it goes on updating peers
  exactly if two peers with one ASN differ (`SecondRun`, `SharedASNIsRewritten`). Without any
  pool, stale advertisements stay for good (`FinalAdvertisements`).

## Model

| member | source | states |
|---|---|---|
| Metal.MetalService.FindIPs | pkg/resources/metal/ip.go:19-27 | contract of the search: the answer lists exactly the matching addresses, each once, in some order |
| Metal.MetalService.FindClusterIPs | pkg/resources/metal/ip.go:19-49 | the two nested loops return exactly the project's addresses that have a tag of the cluster and none whose key is the machine key or the egress key, each once |
| Metal.MetalService.FindProjectIP | pkg/resources/metal/ip.go:52-71 | an answer is the record of the address asked for, in the project; an error means that the search failed or that the project has no such address |
| Metal.MetalService.FindProjectIPsWithTag | pkg/resources/metal/ip.go:74-86 | the answer lists exactly the project's addresses with the tag |
| Metal.MetalService.FreeIP | pkg/resources/metal/ip.go:89-95 | contract of the call: removes the address, or fails without effect |
| Metal.MetalService.AllocateIP | pkg/resources/metal/ip.go:98-118 | contract of the call: a new ephemeral address of the project and network that carries the service's tag, or no effect |
| Metal.MetalService.UpdateIP | pkg/resources/metal/ip.go:121-128 | contract of the call: replaces the tags, and nothing else, or fails without effect |
| Tags.KeyIsText | pkg/controllers/loadbalancer/loadbalancer.go:314-322 | the key of a tag is its longest beginning without '=' |
| Tags.MemberExact | pkg/tags/tagUtils.go:19-30 | exactly which tags a cluster takes for its own: one '=', the key begins with the cluster key and the value with the cluster ID |
| Tags.BuildInjective | pkg/tags/tagUtils.go:11-13 | tags of different services differ if clusters and namespaces have no '/' (service names may) |
| Tags.SlashBreaksInjectivity | pkg/tags/tagUtils.go:11-13 | with a '/' in a cluster ID two services can share a tag |
| Tags.BuiltTagSplits | pkg/tags/tagUtils.go:11-13 | the key of a built tag is the service key, whatever the names are, and a built tag is not blank |
| Tags.MemberIff | pkg/tags/tagUtils.go:19-30 | a built tag is accepted for a cluster ID exactly if no part has an '=' and the ID is a prefix of its value |
| Tags.MemberOfOwnClusterOnly | pkg/tags/tagUtils.go:15-30 | for '='-free parts and IDs of equal length a built tag is accepted exactly for its own cluster |
| Tags.ShorterClusterIDAcceptsForeignTag | pkg/tags/tagUtils.go:25-27 | a shorter ID accepts the tag of another cluster |
| Controller.RemoveServiceTag | pkg/controllers/loadbalancer/loadbalancer.go:290-296 | compacts the caller's slice in place: kept tags in order, then blanks, and the number of kept tags |
| Detach.KeptIsFiltered | pkg/controllers/loadbalancer/loadbalancer.go:290-296 | the kept tags stand in their old order, at exactly the places of the other tags |
| Detach.KeptIsExact | pkg/controllers/loadbalancer/loadbalancer.go:290-296 | the kept tags are all copies of all other tags and none of the removed one |
| Detach.TagsAfterFirstAttempt | pkg/controllers/loadbalancer/loadbalancer.go:254-256 | from the second attempt on the slice holds the kept tags and one blank per removed copy, for good |
| Detach.RetryCalls | pkg/controllers/loadbalancer/loadbalancer.go:254-280 | what every attempt sends: never the removed tag, always the kept tags in order, plus blanks after the first; and exactly when it frees |
| Detach.FailedFreeLeavesBlankTag | pkg/controllers/loadbalancer/loadbalancer.go:254-280 | after any failed attempt, an unused ephemeral address is not freed any more but left with one blank per copy of the tag |
| Detach.DetachAllEffect | pkg/controllers/loadbalancer/loadbalancer.go:252-287 | detaching a list changes each detached address on its own, by the attempt that succeeded, and nothing else |
| Controller.LoadBalancerController.TryDetach | pkg/controllers/loadbalancer/loadbalancer.go:255-279 | one attempt sends the call computed from the slice as the attempts before have left it |
| Controller.LoadBalancerController.DetachWithRetry | pkg/controllers/loadbalancer/loadbalancer.go:254-284 | attempts go on over the same slice until one succeeds or none is left |
| Controller.LoadBalancerController.RemoveServiceTagFromIPs | pkg/controllers/loadbalancer/loadbalancer.go:252-287 | works through the list up to the first address that cannot be detached |
| Lifecycle.RunEffect | pkg/controllers/loadbalancer/loadbalancer.go:92-296 | the log of every run, with any failures, does to each address what the run means for it |
| Controller.LoadBalancerController.DetachService | pkg/controllers/loadbalancer/loadbalancer.go:234-242 | the section of a deletion, which needs the update mutex held from the search on |
| Controller.LoadBalancerController.EnsureLoadBalancerDeleted | pkg/controllers/loadbalancer/loadbalancer.go:226-250 | performs a deletion run, whose search is answered unless the search fails, and reports success exactly if the run succeeded; releases the mutex on every exit |
| Controller.LoadBalancerController.UseIPInCluster | pkg/controllers/loadbalancer/loadbalancer.go:313-333 | sends nothing and fails if some tag has the machine key or the egress key, otherwise sends the old tags with the service's tag behind them |
| Controller.LoadBalancerController.Others | pkg/controllers/loadbalancer/loadbalancer.go:118-120 | the listing without the fixed address |
| Controller.LoadBalancerController.SwitchTo | pkg/controllers/loadbalancer/loadbalancer.go:118-132 | takes the tag off all other addresses before it puts it on the fixed one, and stops where that fails |
| Controller.LoadBalancerController.EnsureFixed | pkg/controllers/loadbalancer/loadbalancer.go:101-133 | performs a fixed-address run; the answer always has the address behind the ingress list |
| Controller.LoadBalancerController.AcquireIP | pkg/controllers/loadbalancer/loadbalancer.go:335-359 | sends one AllocateIP for the project and the annotated pool's network, or else the default one, with the service's tag, and nothing without either |
| Controller.AcquisitionNetworkExact | pkg/controllers/loadbalancer/loadbalancer.go:335-351 | the annotation comes before the default, and the name of an ephemeral pool stands for its network |
| Controller.LoadBalancerController.SetServiceIP | pkg/controllers/loadbalancer/loadbalancer.go:181-190 | the stored service is the version it replaced with only the address changed; not stored only if the service is unknown, refused a call of ours, or was written by others once for each of our attempts |
| Controller.LoadBalancerController.Rollback | pkg/controllers/loadbalancer/loadbalancer.go:154-179 | clears the tags of the fresh address, then frees it, and stops if the first call fails |
| Controller.LoadBalancerController.EnsureAuto | pkg/controllers/loadbalancer/loadbalancer.go:135-205 | performs an acquisition run; no acquisition with an ingress present; success exactly if the address is kept, and then the configuration is written and the address stored in the service; a rollback only if the service could not be written or the configuration did not get through; what was stored stays also after a rollback |
| Controller.LoadBalancerController.EnsureLoadBalancer | pkg/controllers/loadbalancer/loadbalancer.go:92-205 | a fixed-address run if the service asks for an address, otherwise an acquisition run; its searches are answered if none fails, so that by FailureFreeIff the run is failure-free if no call fails; a fresh address is answered only when it is configured and stored, and rolled back only for one of the reasons of EnsureAuto; all mutexes released on every exit |
| Recovery.DeleteLeavesNoCarrier | pkg/controllers/loadbalancer/loadbalancer.go:226-287 | after a successful deletion no project address carries the tag, whatever leftovers and duplicates there were |
| Recovery.DeleteProgress | pkg/controllers/loadbalancer/loadbalancer.go:252-287 | a deletion, failing or not, takes the tag off exactly as many addresses as it finished with, and adds none |
| Recovery.FixedLeavesOneCarrier | pkg/controllers/loadbalancer/loadbalancer.go:101-133 | after a successful fixed-address run the fixed address alone carries the tag, behind its old tags |
| Recovery.FixedAndDeleteAcquireNothing | pkg/controllers/loadbalancer/loadbalancer.go:101-133 | no address is acquired for a service with a fixed address or for a deletion, and the only call that can leave the tag on an address is the last one of a run for that fixed address |
| Recovery.RollbackRestores | pkg/controllers/loadbalancer/loadbalancer.go:149-200 | the inventory is the old one exactly if nothing was acquired or both rollback calls succeed; else only the fresh address is left over; a service that still asks for a rolled back address can neither succeed nor send anything |
| Recovery.RollbackCommutesWithOthers | pkg/controllers/loadbalancer/loadbalancer.go:154-179 | with any calls of others before, between and after, also on the fresh address, a rolled back acquisition leaves what the calls on other addresses alone leave, exactly unless somebody has acquired the address again |
| Recovery.RollbackTakesNothingIff | pkg/controllers/loadbalancer/loadbalancer.go:154-179 | whatever others send before and between its calls, a rollback takes the address from no other service, at no moment, exactly if the address has no tag but the acquirer's whenever one of its calls takes effect |
| Recovery.TakesNothingIff | pkg/controllers/loadbalancer/loadbalancer.go:154-179 | the same for any log with clears of the address and at most a Free at the end among it |
| Recovery.RollbackTakesAttachedAddress | pkg/controllers/loadbalancer/loadbalancer.go:161-176 | every acquisition that is rolled back, with another service successfully attached in between: the other's only address is gone |
| Ownership.ReservedOverRuns | pkg/controllers/loadbalancer/loadbalancer.go:313-333 | over all runs with any failures an address reserved for a machine or egress is never freed, stays reserved and gains no service tag |
| Ownership.KeyKeptOverRuns | pkg/controllers/loadbalancer/loadbalancer.go:313-333 | the same for each of the two keys by itself, in terms of the keys of the tags |
| Ownership.FixedAddressIsVisible | pkg/controllers/loadbalancer/loadbalancer.go:323-331 | a tagged fixed address is then among the cluster's addresses, exactly if no part has an '=' or another tag already named the cluster |
| Ownership.ForeignIsFiltered | pkg/controllers/loadbalancer/loadbalancer.go:290-296 | the other tags of an address are all that neither have the service key nor are blank, in order |
| Ownership.StaticOverRuns | pkg/controllers/loadbalancer/loadbalancer.go:252-296 | over all runs with any failures an address that is not ephemeral is never freed and keeps its other tags in order |
| Ownership.FailureFreeIff | pkg/controllers/loadbalancer/loadbalancer.go:92-287 | a run is failure-free exactly if its searches were answered and no call it sent failed |
| Ownership.DetachDropsReference | pkg/controllers/loadbalancer/loadbalancer.go:255-279 | a detach that does not fail frees an acquired address exactly if the service was its last holder, and else leaves the tags of the other holders |
| Ownership.CountedOverRuns | pkg/controllers/loadbalancer/loadbalancer.go:92-296 | over all failure-free runs an acquired address is there exactly while the reference model has a holder for it, tagged for its holders and nobody else |
| Ownership.DeleteFreesExactly | pkg/controllers/loadbalancer/loadbalancer.go:252-287 | with any failures, a deletion frees exactly the ephemeral addresses that carry this service's tag and nothing else and whose first attempt succeeded; without failures all of the former |
| UpdateMutex.StepKeepsInvariant | pkg/controllers/loadbalancer/loadbalancer.go:102-132 | every step of every thread keeps mutual exclusion and "finished runs, then the owner's calls so far, beside them what was acquired meanwhile" |
| UpdateMutex.Serializable | pkg/controllers/loadbalancer/loadbalancer.go:102-132 | no lost update: under every interleaving of fixed-address and delete operations with each other and with acquisitions, with any failures, the inventory is that of the finished operations one after another, in lock order with the acquisitions among them |
| UpdateMutex.LostWithoutMutex | pkg/controllers/loadbalancer/loadbalancer.go:102-132 | without the mutex two successful attachments to one address leave only the second service's tag |
| UpdateMutex.SnapshotsAreCurrent | pkg/controllers/loadbalancer/loadbalancer.go:114-126 | whatever a thread has still to send is computed from tags that are the current ones |
| UpdateMutex.HistoryThenLater | pkg/controllers/loadbalancer/loadbalancer.go:135-147 | acquisitions made while another operation is sending can as well come after it |
| UpdateMutex.CountedConcurrently | pkg/controllers/loadbalancer/loadbalancer.go:92-250 | reference counting holds after every failure-free interleaving of acquiring, attaching, switching and deleting |
| Mutexes.SnapshotsAreOrdered | pkg/controllers/loadbalancer/loadbalancer.go:299-311 | a configuration computed from an older inventory never overwrites one from a newer inventory, and none is older than the lock it was written under |
| Mutexes.MutualExclusion | pkg/controllers/loadbalancer/loadbalancer.go:42-44 | two threads never hold the same mutex |
| Mutexes.CallsUnderMutex | pkg/controllers/loadbalancer/loadbalancer.go:102-136 | every call on the inventory is sent by a holder of the update or the allocate mutex, and every write by the holder of the configuration mutex |
| Mutexes.AcquiredIsConfiguredOrRolledBack | pkg/controllers/loadbalancer/loadbalancer.go:144-204 | a thread that acquired an address and is done has written a configuration to its end or has begun to roll back |
| Mutexes.SomeThreadCanStep | pkg/controllers/loadbalancer/loadbalancer.go:135-136 | no deadlock: among any number of operations and configuration updates, a schedule can be continued exactly while some thread is unfinished |
| Mutexes.SomeoneBehindCanStep | pkg/controllers/loadbalancer/loadbalancer.go:299-301 | behind every thread that is blocked in a Lock there is one that can step, found by going from owner to owner |
| Mutexes.LockOrder | pkg/controllers/loadbalancer/loadbalancer.go:135-194 | a thread only ever waits for a mutex that comes after all it holds: the configuration mutex after the allocate mutex |
| Mutexes.StepUsesUp | pkg/controllers/loadbalancer/loadbalancer.go:299-311 | every step goes on to a later stage, to the next list of objects, or past an attempt or an item of the list that was read, so that no schedule goes on forever |
| Optimistic.RetryOnConflict | pkg/controllers/loadbalancer/loadbalancer.go:181-190 | against any foreign writes, a stored object is the change applied to exactly the version it replaced; a conflict is retried, and nothing else; it is not stored only if a call of ours was refused, the change is not defined, or others wrote once for each of `steps` attempts |
| Optimistic.UpdateNodeAnnotationsWithBackoff | pkg/resources/kubernetes/node.go:44-57 | sets the given annotations and keeps every other annotation, label and field of the version it replaced; gives up only as RetryOnConflict does |
| Optimistic.AnnotationUpdatesCopy | pkg/resources/kubernetes/node.go:44-57 | every call, stored or not, keeps the history one in which our writes only copy our keys |
| Optimistic.ForeignAnnotationsSurvive | pkg/resources/kubernetes/node.go:52-54 | what others last wrote is still there after any number of our updates |
| Pools.PoolNameInjective | pkg/controllers/loadbalancer/config/addresspool.go:74-81 | pool names agree exactly if the lower-case networks do and both are static or neither is |
| Pools.NetworkOfEphemeralPool | pkg/controllers/loadbalancer/loadbalancer.go:348-351 | the network comes back from the name of its ephemeral pool exactly if it is in lower case and has no such suffix itself |
| Pools.NetworkLost | pkg/controllers/loadbalancer/loadbalancer.go:348-351 | a network in upper case and one with an ephemeral suffix of its own that do not come back |
| Pools.StaticPoolIsNotTrimmed | pkg/controllers/loadbalancer/loadbalancer.go:348-351 | the name of a static pool is taken for a network as it is |
| Pools.AcquiredLandsInPool | pkg/controllers/loadbalancer/loadbalancer.go:335-359 | an address acquired through a pool name lands in the pool of that name exactly for lower-case names with one ephemeral suffix |
| Pools.AppendIP | pkg/controllers/loadbalancer/config/addresspool.go:35-56 | fails exactly without an address that parses, and adds its CIDR at the end unless it is there |
| Pools.AddressPools.AddPoolIP | pkg/controllers/loadbalancer/config/addresspool.go:58-72 | adds to the named pool, which is created if missing, also when the address then fails |
| Pools.ComputeAddressPools | pkg/controllers/loadbalancer/config/config.go:74-106 | the pools of all addresses in the networks, and exactly the inputs on which it fails or dereferences a missing address |
| Pools.PoolsExact | pkg/controllers/loadbalancer/config/config.go:74-106 | keys are names, no pool is empty or repeats a CIDR, and a CIDR is in a pool exactly if an address in the networks with that canonical form is mapped there |
| Pools.FirstOccurrencesOrdered | pkg/controllers/loadbalancer/config/addresspool.go:47-53 | a pool lists its CIDRs in the order of their first occurrence |
| Pools.PoolsIgnoreOrder | pkg/controllers/loadbalancer/config/config.go:80-98 | permuting the addresses changes neither failure nor the set of CIDRs of any pool |
| Pools.SizesAddUp | pkg/controllers/loadbalancer/config/config.go:80-98 | for addresses with different canonical forms the pool sizes add up to the number of addresses in the networks |
| Pools.InExactlyOnePool | pkg/controllers/loadbalancer/config/config.go:90-95 | and each of them is in exactly one pool |
| Text.ToLowerExact | pkg/controllers/loadbalancer/config/addresspool.go:74-81 | lower-casing, letter by letter |
| Text.ParsesExactly | pkg/controllers/loadbalancer/config/config.go:137-140 | digits with at most one sign are read as their value, within 64 bits |
| Text.DigitsExact | pkg/controllers/loadbalancer/config/metallb_config.go:64-64 | printed numbers have no leading zeros and end in their last digit |
| Text.DecimalRoundTrip | pkg/controllers/loadbalancer/config/config.go:137-140 | parsing a printed number gives the number back, and fails exactly outside 64 bits |
| Peers.NodeAddress | pkg/resources/kubernetes/node.go:68-75 | the first internal address, and an error exactly without one |
| Peers.NewPeer | pkg/controllers/loadbalancer/config/peer.go:16-44 | the peer of a node, with any ASN modulo 2^32, exactly if the node has an internal address |
| Peers.ComputePeers | pkg/controllers/loadbalancer/config/config.go:108-127 | fails exactly if some node has no proper label; otherwise there is one peer for each node with an internal address, in order, with its name, first internal address and label modulo 2^32 |
| Peers.PeersOfCorrespond | pkg/controllers/loadbalancer/config/config.go:108-127 | the same of the specification |
| Peers.PeerNameInjective | pkg/controllers/loadbalancer/config/metallb_config.go:64-64 | peer and policy names differ for different ASNs |
| Peers.OneObjectPerASN | pkg/controllers/loadbalancer/config/metallb_config.go:57-79 | there is one object for each ASN among the peers, with the spec of the last peer that has it, and no other |
| Peers.AnnotationNamesPeerASN | pkg/controllers/loadbalancer/config/cilium_config.go:205-213 | the annotation's number is the policy's local ASN exactly if the label's number lies in 0 to 2^32-1 |
| Peers.LargeLabelDisagrees | pkg/controllers/loadbalancer/config/peer.go:32-36 | with any larger label the peer has another number than the annotation, and ASN 0 with the label 2^32 |
| Peers.LabelRoundTrip | pkg/controllers/loadbalancer/config/config.go:129-143 | a label that is a printed ASN gives a peer with that ASN |
| BaseConfigs.NewBaseConfig | pkg/controllers/loadbalancer/config/config.go:57-72 | panics exactly on a missing address outside the networks, never on listed addresses, and else fails exactly on an unusable address or node; pools are kept under their names |
| BaseConfigs.PoolObjects | pkg/controllers/loadbalancer/config/metallb_config.go:110-128 | one iteration over the pools, in any order, lists each pool's object once |
| BaseConfigs.WritePools | pkg/controllers/loadbalancer/config/metallb_config.go:89-137 | exactly the desired pools for every iteration order; between old and desired if stopped; no change at all the second time |
| BaseConfigs.WritePeers | pkg/controllers/loadbalancer/config/metallb_config.go:34-87 | exactly the desired peers from any start; between old and desired if stopped |
| Reconcile.LatestIsLastEntry | pkg/controllers/loadbalancer/config/metallb_config.go:57-79 | writing a list in order leaves under every name the spec of its last entry |
| Reconcile.Sweep | pkg/controllers/loadbalancer/config/metallb_config.go:39-55 | the nested loops delete exactly the objects that are not wanted, and only such if stopped |
| Reconcile.Upsert | pkg/controllers/loadbalancer/config/metallb_config.go:57-87 | creates or updates in list order, with exactly the changes that takes |
| Reconcile.UpsertsLead | pkg/controllers/loadbalancer/config/metallb_config.go:57-87 | the changes recorded lead from the old objects to the new ones |
| Reconcile.Pass | pkg/controllers/loadbalancer/config/metallb_config.go:39-87 | from any objects to exactly the desired ones, or to something between |
| Reconcile.BetweenIsClosed | pkg/controllers/loadbalancer/config/metallb_config.go:33-189 | stopping any number of times keeps the objects between the first and the desired ones |
| BaseConfigs.BetweenMapsIsClosed | pkg/controllers/loadbalancer/config/metallb_config.go:89-186 | the same for pools and advertisements |
| Reconcile.SecondPass | pkg/controllers/loadbalancer/config/metallb_config.go:39-87 | a second pass deletes and creates nothing, and is silent exactly if entries of the same name agree |
| MetalLB.Config.WriteAdvertisements | pkg/controllers/loadbalancer/config/metallb_config.go:139-186 | exactly one advertisement per pool, and with no pools no call at all |
| MetalLB.Config.WriteCRs | pkg/controllers/loadbalancer/config/metallb_config.go:33-189 | the final state from any objects and for every order, an interrupted one if stopped anywhere; it is stopped only by a call that fails; over a final state no change but updates of peers |
| MetalLB.CrashResume | pkg/controllers/loadbalancer/config/metallb_config.go:33-189 | after any number of interrupted writes a complete one ends as if there had been none, and no desired object is ever missing in between |
| MetalLB.FinalExact | pkg/controllers/loadbalancer/config/metallb_config.go:57-186 | the final state has one peer per ASN with the last spec, one pool object per pool with its CIDRs, and one advertisement per pool that refers to it |
| MetalLB.SecondRun | pkg/controllers/loadbalancer/config/metallb_config.go:57-87 | running again only ever updates peers, and exactly if two peers with one ASN differ |
| MetalLB.SharedASNIsRewritten | pkg/controllers/loadbalancer/config/metallb_config.go:57-87 | two differing peers with one ASN are both written again, one over the other |
| MetalLB.FinalPeersOfNodes | pkg/controllers/loadbalancer/config/metallb_config.go:57-79 | in terms of nodes: exactly one peer object for each ASN of a node with an internal address, saying field by field what the last such node says |
| MetalLB.FinalAdvertisements | pkg/controllers/loadbalancer/config/metallb_config.go:139-186 | one advertisement for each pool object if there is one, and otherwise the old ones |
| Cilium.Config.WriteCRs | pkg/controllers/loadbalancer/config/cilium_config.go:36-53 | exactly the desired policies and pools from any objects unless a call on them fails, something between if stopped, and in the end every listed node annotated; it fails only with a failed call or a node that cannot be annotated |
| Cilium.Config.WriteNodeAnnotations | pkg/controllers/loadbalancer/config/cilium_config.go:193-222 | every listed node has had our annotation under its label's number written, whoever else writes it; it fails only if the list fails, or a node has no proper label, is unknown, has no annotations, refuses a call or is written by others once for each attempt |
| Cilium.CrashResume | pkg/controllers/loadbalancer/config/cilium_config.go:36-188 | after any number of interrupted writes no desired policy or pool is missing that was there, and there is nothing but old and desired specs |
| Cilium.FinalPoliciesOfNodes | pkg/controllers/loadbalancer/config/cilium_config.go:80-131 | in terms of nodes: exactly one policy for each ASN of a node with an internal address, for the last such node |
| Cilium.AnnotationNamesPolicyASN | pkg/controllers/loadbalancer/config/cilium_config.go:205-207 | the text of the key that is written names the local ASN of the node's policy exactly for labels in 0 to 2^32-1 |
| Cilium.FinalExact | pkg/controllers/loadbalancer/config/cilium_config.go:80-188 | one policy per ASN for the last peer with it, and the blocks of a pool are its CIDRs |
| Controller.LoadBalancerController.ComputeConfig | pkg/controllers/loadbalancer/loadbalancer.go:361-370 | the pools and peers of the inventory and the nodes, exactly if the search is answered and every address and node is usable |
| Controller.LoadBalancerController.UpdateLoadBalancerConfig | pkg/controllers/loadbalancer/loadbalancer.go:299-378 | end to end, for both back ends: each pool object has a pool's name and lists exactly the CIDRs of the inventory's addresses that belong to the cluster, are not reserved, lie in the networks and go to this pool; one peer or policy per ASN of the nodes, for the last node with it; one advertisement per pool; with Cilium every listed node annotated. So it is unless a call fails, an address or a node is unusable, or a node cannot be annotated |

## Left out

- UpdateMutex.Serializable: no rollbacks among the interleaved threads. They run outside
  `ipUpdateMutex`, so that operations attached to the fresh address meanwhile have no serial
  order; RollbackCommutesWithOthers and RollbackTakesNothingIff say what holds beside them.
- Mutexes.SnapshotsAreOrdered: says nothing about peers, since the nodes are read outside the
  mutex; the inventory calls of a section are arbitrary there.
- Mutexes.StepUsesUp: how many lists of objects a configuration goes through is any number up to
  three more than the addresses, which covers both back ends.
- Pools.PoolNameInjective: lower-casing is modelled for ASCII letters.
- Cilium.Config.WriteNodeAnnotations: copying into a node without any annotations is a panic in
  the original; here it is an outcome of its own, and the write counts as failed.
- Cilium.Config.WriteCRs: the nodes that the cluster lists are any fixed list, and need not be
  those the policies were computed from.
- Controller.RemoveServiceTag: each response has its own tag slice, and only the compaction of
  that slice is modelled in place; the list of responses, which the code also compacts in place
  but does not read again, is a value.
- Reconcile.Pass: CreateOrUpdate is one call that reads, compares and writes; its read and its
  write cannot be interrupted by others.
- Address parsing, name generation, retry delays and the order in which mutexes are granted.
- Several addresses of the same text in one project: the inventory has one record per address.
- The metal-api and Kubernetes clients, error texts, logging, and constant fields of the custom
  resources (hold time, graceful restart, service selector).
- The name of the load balancer type, the conversion of selectors and the label update of nodes,
  which repeats the annotation update.
- Housekeeping, instances, zones, machine caches, SSH keys and node labels: timers and field
  copying.
