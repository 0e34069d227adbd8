/** Safety of address ownership over whole runs of the controller: reserved addresses and
    static addresses over runs with any failures, reference counting over runs without. */
module Ownership {
  import opened Wrappers
  import opened Text
  import opened Tags
  import opened Metal
  import opened Detach
  import opened Lifecycle
  import opened Recovery

  // ---- addresses reserved for a machine or for egress ----

  predicate IsServiceTag(t: string) {
    Key(t) == CLUSTER_SERVICE_FQN
  }

  lemma BlankIsNoKey(keys: ReservedKeys)
    ensures Key("") != keys.machineID && Key("") != keys.clusterEgress && !IsServiceTag("")
  {
    assert Key("") == "";
  }

  lemma StillReserved(tags: seq<string>, tags': seq<string>, keys: ReservedKeys, tag: string)
    requires Reserved(tags, keys) && IsServiceTag(tag)
    requires forall t :: t in tags && t != tag ==> t in tags'
    ensures Reserved(tags', keys)
  {
    var key := if HasKey(tags, keys.machineID) then keys.machineID else keys.clusterEgress;
    var i :| 0 <= i < |tags| && Key(tags[i]) == key;
    assert tags[i] in tags';
  }

  /** A reserved address is never freed, stays reserved and never gains a service tag. */
  lemma ReservedGainsNothing(cfg: Settings, inv: Inventory, run: Run, a: string)
    requires ValidRun(cfg, inv, run)
    requires a in inv && Reserved(inv[a].tags, cfg.keys)
    ensures var after := After(cfg, inv, run);
            && a in after && Reserved(after[a].tags, cfg.keys)
            && forall t :: t in after[a].tags && IsServiceTag(t) ==> t in inv[a].tags
  {
    RunEffect(cfg, inv, run, a);
    LookupIs(After(cfg, inv, run), a);
    ServiceTagNotBlank(cfg, run.svc);
    BlankIsNoKey(cfg.keys);
    var tag := ServiceTag(cfg, run.svc);
    forall k ensures Detached(inv[a], tag, k).Some? && Reserved(Detached(inv[a], tag, k).value.tags, cfg.keys) {
      DetachedLosesTag(inv[a], tag, k);
      if Detached(inv[a], tag, k).Some? {
        StillReserved(inv[a].tags, Detached(inv[a], tag, k).value.tags, cfg.keys, tag);
      } else {
        StillReserved(inv[a].tags, [], cfg.keys, tag);
      }
    }
    forall r, k { DetachedLosesTag(r, tag, k); }
    assert inv[a].tags + [] == inv[a].tags;
  }

  lemma {:induction false} ReservedOverRuns(cfg: Settings, inv: Inventory, runs: seq<Run>, a: string)
    requires ValidRuns(cfg, inv, runs)
    requires a in inv && Reserved(inv[a].tags, cfg.keys)
    ensures var after := AfterAll(cfg, inv, runs);
            && a in after && Reserved(after[a].tags, cfg.keys)
            && forall t :: t in after[a].tags && IsServiceTag(t) ==> t in inv[a].tags
  {
    if runs != [] {
      var front := runs[..|runs| - 1];
      ReservedOverRuns(cfg, inv, front, a);
      ReservedGainsNothing(cfg, AfterAll(cfg, inv, front), runs[|runs| - 1], a);
    }
  }

  predicate HasTagWithKey(inv: Inventory, a: string, key: string) {
    a in inv && exists i :: 0 <= i < |inv[a].tags| && Key(inv[a].tags[i]) == key
  }

  lemma KeyIsKept(cfg: Settings, inv: Inventory, run: Run, a: string, key: string)
    requires ValidRun(cfg, inv, run) && HasTagWithKey(inv, a, key)
    requires key == cfg.keys.machineID || key == cfg.keys.clusterEgress
    ensures HasTagWithKey(After(cfg, inv, run), a, key)
    ensures forall t :: t in After(cfg, inv, run)[a].tags && Key(t) == CLUSTER_SERVICE_FQN ==> t in inv[a].tags
  {
    ReservedGainsNothing(cfg, inv, run, a);
    var i :| 0 <= i < |inv[a].tags| && Key(inv[a].tags[i]) == key;
    ServiceTagNotBlank(cfg, run.svc);
    OtherTagStays(cfg, inv, run, a, inv[a].tags[i]);
    var j :| 0 <= j < |After(cfg, inv, run)[a].tags| && After(cfg, inv, run)[a].tags[j] == inv[a].tags[i];
  }

  lemma OtherTagStays(cfg: Settings, inv: Inventory, run: Run, a: string, t: string)
    requires ValidRun(cfg, inv, run) && a in inv && t in inv[a].tags && t != ServiceTag(cfg, run.svc)
    requires a in After(cfg, inv, run)
    ensures t in After(cfg, inv, run)[a].tags
  {
    var after, tag := After(cfg, inv, run), ServiceTag(cfg, run.svc);
    RunEffect(cfg, inv, run, a);
    LookupIs(after, a);
    ServiceTagNotBlank(cfg, run.svc);
    forall k { DetachedLosesTag(inv[a], tag, k); }
    assert inv[a].tags + [] == inv[a].tags;
  }

  /** For each of the two keys by itself: over every run, with any failures, an address with a
      tag of this key stays, keeps such a tag, and gains no service tag. */
  lemma {:induction false} KeyKeptOverRuns(cfg: Settings, inv: Inventory, runs: seq<Run>, a: string, key: string)
    requires ValidRuns(cfg, inv, runs)
    requires a in inv && exists i :: 0 <= i < |inv[a].tags| && Key(inv[a].tags[i]) == key
    requires key == cfg.keys.machineID || key == cfg.keys.clusterEgress
    ensures var after := AfterAll(cfg, inv, runs);
            && a in after && (exists i :: 0 <= i < |after[a].tags| && Key(after[a].tags[i]) == key)
            && forall t :: t in after[a].tags && Key(t) == CLUSTER_SERVICE_FQN ==> t in inv[a].tags
  {
    if runs != [] {
      var front := runs[..|runs| - 1];
      KeyKeptOverRuns(cfg, inv, front, a, key);
      KeyIsKept(cfg, AfterAll(cfg, inv, front), runs[|runs| - 1], a, key);
    }
  }

  /** An address that a fixed-address run has tagged is then found as an address of the cluster,
      exactly if no part of the tag contains '=' or another tag already named the cluster. */
  lemma FixedAddressIsVisible(cfg: Settings, inv: Inventory, run: Run)
    requires ValidRun(cfg, inv, run) && run.FixedRun? && Succeeded(cfg, run)
    ensures run.address in ClusterAddresses(After(cfg, inv, run), cfg.project, cfg.clusterID, cfg.keys)
            <==> ('=' !in cfg.clusterID && '=' !in run.svc.namespace && '=' !in run.svc.name)
                 || exists i :: 0 <= i < |inv[run.address].tags|
                         && IsMemberOfCluster(inv[run.address].tags[i], cfg.clusterID)
  {
    var tag, old', after := ServiceTag(cfg, run.svc), inv[run.address].tags, After(cfg, inv, run);
    FixedLeavesOneCarrier(cfg, inv, run);
    assert run.address in Carriers(after, cfg, tag);
    var new' := after[run.address].tags;
    assert new' == old' + [tag];
    MemberIff(cfg.clusterID, run.svc.namespace, run.svc.name, cfg.clusterID);
    assert cfg.clusterID <= cfg.clusterID + "/" + run.svc.namespace + "/" + run.svc.name;
    ServiceTagNotBlank(cfg, run.svc);
    assert !Reserved(new', cfg.keys);
    assert new'[|old'|] == tag;
    assert forall i :: 0 <= i < |old'| ==> new'[i] == old'[i];
  }

  // ---- static addresses ----

  /** The tags that are neither service tags nor blank. */
  function Foreign(tags: seq<string>): seq<string> {
    if tags == [] then []
    else
      var last := tags[|tags| - 1];
      Foreign(tags[..|tags| - 1]) + if IsServiceTag(last) || last == "" then [] else [last]
  }

  /** Exactly these tags, each as often as it is there, in order. */
  lemma {:induction false} ForeignIsFiltered(tags: seq<string>)
    ensures exists idx :: ForeignAt(idx, tags)
  {
    if tags == [] {
      assert ForeignAt([], tags);
    } else {
      var front, last := tags[..|tags| - 1], tags[|tags| - 1];
      ForeignIsFiltered(front);
      OneMoreForeign(front, last);
      assert front + [last] == tags;
    }
  }

  lemma OneMoreForeign(front: seq<string>, last: string)
    requires exists idx :: ForeignAt(idx, front)
    ensures exists idx :: ForeignAt(idx, front + [last])
  {
    var idx :| ForeignAt(idx, front);
    ForeignAtSnoc(idx, front, last);
  }

  /** They stand at these places, where the key is another one and the tag is not blank. */
  ghost predicate ForeignAt(idx: seq<nat>, tags: seq<string>) {
    && Embeds(idx, tags, Foreign(tags))
    && forall j: nat :: j < |tags| ==> (j in idx <==> Key(tags[j]) != CLUSTER_SERVICE_FQN && tags[j] != "")
  }

  lemma ForeignAtSnoc(idx: seq<nat>, front: seq<string>, last: string)
    requires ForeignAt(idx, front)
    ensures ForeignAt(if Key(last) != CLUSTER_SERVICE_FQN && last != "" then idx + [|front|] else idx, front + [last])
  {
    assert (front + [last])[..|front|] == front;
    assert Foreign(front) + [] == Foreign(front);
    EmbedsSnoc(idx, front, Foreign(front), last);
    PicksSnoc(idx, |front|);
  }

  lemma {:induction false} ForeignConcat(a: seq<string>, b: seq<string>)
    ensures Foreign(a + b) == Foreign(a) + Foreign(b)
  {
    if b == [] {
      assert a + b == a;
    } else {
      ForeignConcat(a, b[..|b| - 1]);
      assert (a + b)[..|a + b| - 1] == a + b[..|b| - 1];
    }
  }

  lemma {:induction false} ForeignOfBlanks(n: nat)
    ensures Foreign(Blanks(n)) == []
  {
    if n > 0 {
      ForeignOfBlanks(n - 1);
      assert Blanks(n)[..n - 1] == Blanks(n - 1);
    }
  }

  lemma {:induction false} ForeignOfKept(tags: seq<string>, tag: string)
    requires IsServiceTag(tag)
    ensures Foreign(Kept(tags, tag)) == Foreign(tags)
  {
    if tags != [] {
      var front, last := tags[..|tags| - 1], tags[|tags| - 1];
      ForeignOfKept(front, tag);
      ForeignConcat(Kept(front, tag), [last]);
      assert Kept(front, tag) + [] == Kept(front, tag);
    }
  }

  lemma ForeignOfDetached(r: IPRecord, tag: string, k: nat)
    requires IsServiceTag(tag) && tag != "" && r.iptype != EPHEMERAL
    ensures Detached(r, tag, k).Some? && Foreign(Detached(r, tag, k).value.tags) == Foreign(r.tags)
  {
    SentTagsExact(r.tags, tag, k);
    ForeignOfSent(r.tags, tag, k);
  }

  lemma ForeignOfSent(tags: seq<string>, tag: string, k: nat)
    requires IsServiceTag(tag)
    ensures Foreign(SentTags(tags, tag, k)) == Foreign(tags)
  {
    ForeignOfKept(tags, tag);
    var blanks := Blanks(|tags| - |Kept(tags, tag)|);
    ForeignConcat(Kept(tags, tag), blanks);
    ForeignOfBlanks(|tags| - |Kept(tags, tag)|);
  }

  /** The same address under the same conditions, up to service tags and blanks. */
  predicate SameButServices(r: IPRecord, r': IPRecord) {
    r' == r.(tags := r'.tags) && Foreign(r'.tags) == Foreign(r.tags)
  }

  lemma ForeignOfAttached(tags: seq<string>, tag: string)
    requires IsServiceTag(tag)
    ensures Foreign(tags + [tag]) == Foreign(tags) && tags + [] == tags
  {
    assert (tags + [tag])[..|tags|] == tags;
    assert Foreign(tags) + [] == Foreign(tags);
  }

  lemma StaticIsKept(cfg: Settings, inv: Inventory, run: Run, a: string)
    requires ValidRun(cfg, inv, run) && a in inv && inv[a].iptype != EPHEMERAL
    ensures var after := After(cfg, inv, run);
            a in after && SameButServices(inv[a], after[a])
  {
    var tag := ServiceTag(cfg, run.svc);
    RunEffect(cfg, inv, run, a);
    LookupIs(After(cfg, inv, run), a);
    ServiceTagNotBlank(cfg, run.svc);
    if run.FixedRun? && a == run.address {
      ForeignOfAttached(inv[a].tags, tag);
    } else {
      forall k ensures Detached(inv[a], tag, k).Some? && SameButServices(inv[a], Detached(inv[a], tag, k).value) {
        ForeignOfDetached(inv[a], tag, k);
      }
    }
  }

  /** Over every run, with any failures: an address that is not ephemeral is never freed, and
      its tags of other kinds stay, in their order. */
  lemma {:induction false} StaticOverRuns(cfg: Settings, inv: Inventory, runs: seq<Run>, a: string)
    requires ValidRuns(cfg, inv, runs) && a in inv && inv[a].iptype != EPHEMERAL
    ensures var after := AfterAll(cfg, inv, runs);
            a in after && SameButServices(inv[a], after[a])
  {
    if runs != [] {
      var front := runs[..|runs| - 1];
      StaticOverRuns(cfg, inv, front, a);
      StaticIsKept(cfg, AfterAll(cfg, inv, front), runs[|runs| - 1], a);
    }
  }

  // ---- reference counting ----

  /** Who holds each address that the controller ever acquired: the reference model. */
  type References = map<string, set<ServiceName>>

  function ReferencesAfter(refs: References, run: Run): References {
    match run
    case AutoRun(svc, _, address, end) => if end.Acquired? then refs[address := {svc}] else refs
    case FixedRun(_, _, None, _, _) => refs
    case FixedRun(svc, address, Some(_), _, use) =>
      map a | a in refs ::
        if a != address then refs[a] - {svc} else if use == Sent(true) then refs[a] + {svc} else refs[a]
    case DeleteRun(_, None, _) => refs
    case DeleteRun(svc, Some(_), _) => map a | a in refs :: refs[a] - {svc}
  }

  function ReferencesAfterAll(refs: References, runs: seq<Run>): References {
    if runs == [] then refs
    else ReferencesAfter(ReferencesAfterAll(refs, runs[..|runs| - 1]), runs[|runs| - 1])
  }

  predicate NoFailures(plan: seq<nat>, n: nat) {
    |plan| == n && forall i :: 0 <= i < n ==> plan[i] == 0
  }

  /** No metal API call of the run failed, nor one of its rollback. */
  predicate FailureFree(cfg: Settings, inv: Inventory, run: Run) {
    match run
    case AutoRun(_, _, _, end) => end.NotTried? || end.Acquired? || end == RolledBack(true, true)
    case FixedRun(_, address, None, _, _) => !InProject(cfg, inv, address)
    case FixedRun(_, _, Some(others), plan, use) => NoFailures(plan, |others|) && use != Sent(false)
    case DeleteRun(_, None, _) => false
    case DeleteRun(_, Some(ips), plan) => NoFailures(plan, |ips|)
  }

  ghost predicate FailureFreeRuns(cfg: Settings, inv: Inventory, runs: seq<Run>) {
    ValidRuns(cfg, inv, runs)
    && (runs == [] ||
        var front := runs[..|runs| - 1];
        FailureFreeRuns(cfg, inv, front) && FailureFree(cfg, AfterAll(cfg, inv, front), runs[|runs| - 1]))
  }

  /** The searches of the run were answered; a search for an address that is not there fails. */
  predicate SearchesAnswered(cfg: Settings, inv: Inventory, run: Run) {
    match run
    case AutoRun(_, _, _, _) => true
    case FixedRun(_, address, list, _, _) => list.None? ==> !InProject(cfg, inv, address)
    case DeleteRun(_, list, _) => list.Some?
  }

  ghost predicate AllOk(log: seq<Attempt>) {
    forall i :: 0 <= i < |log| ==> log[i].ok
  }

  lemma AllOkConcat(a: seq<Attempt>, b: seq<Attempt>)
    ensures AllOk(a + b) <==> AllOk(a) && AllOk(b)
  {
    assert forall i :: 0 <= i < |a| ==> a[i] == (a + b)[i];
    assert forall i :: 0 <= i < |b| ==> b[i] == (a + b)[|a| + i];
  }

  lemma {:induction false} DetachesOk(ips: seq<IPResponse>, tag: string, plan: seq<nat>, attempts: nat)
    requires Addressed(ips) && |plan| <= |ips| && attempts > 0
    ensures AllOk(DetachAllLog(ips, tag, plan, attempts)) <==> forall i :: 0 <= i < |plan| ==> plan[i] == 0
  {
    if plan != [] {
      var n := |plan| - 1;
      DetachesOk(ips, tag, plan[..n], attempts);
      AllOkConcat(DetachAllLog(ips, tag, plan[..n], attempts), DetachLog(ips[n], tag, plan[n], attempts));
      assert forall i :: 0 <= i < n ==> plan[..n][i] == plan[i];
      var failed := FailedAttempts(ips[n], tag, plan[n]);
      if plan[n] > 0 {
        assert !failed[|failed| - 1].ok;
        assert DetachLog(ips[n], tag, plan[n], attempts)[|failed| - 1] == failed[|failed| - 1];
      }
    }
  }

  /** Failure-free means just that: the searches were answered and no call in the log failed. */
  lemma FailureFreeIff(cfg: Settings, inv: Inventory, run: Run)
    requires ValidRun(cfg, inv, run)
    ensures FailureFree(cfg, inv, run) <==> SearchesAnswered(cfg, inv, run) && AllOk(RunLog(cfg, inv, run))
  {
    match run
    case AutoRun(_, _, address, end) =>
      var log := AcquisitionLog(address, FreshRecord(cfg, run), end);
      if end.NotAllocated? {
        assert !log[0].ok;
      } else if end.RolledBack? {
        assert log[1].ok == end.cleared;
        assert end.cleared ==> log[2].ok == end.freed;
      }
    case FixedRun(svc, address, list, plan, use) =>
      if list.Some? {
        DetachesOk(list.value, ServiceTag(cfg, svc), plan, cfg.attempts);
        AllOkConcat(DetachAllLog(list.value, ServiceTag(cfg, svc), plan, cfg.attempts),
                    UseLog(address, inv[address].tags, ServiceTag(cfg, svc), use));
        if use.Sent? {
          assert UseLog(address, inv[address].tags, ServiceTag(cfg, svc), use)[0].ok == use.ok;
        }
        assert use.NotReached? ==> plan[|plan| - 1] != 0;
      }
    case DeleteRun(svc, list, plan) =>
      if list.Some? {
        DetachesOk(list.value, ServiceTag(cfg, svc), plan, cfg.attempts);
        assert Broken(plan, |list.value|, cfg.attempts) ==> plan[|plan| - 1] != 0;
      }
  }

  predicate Slashless(cfg: Settings, svc: ServiceName) {
    '/' !in cfg.clusterID && '/' !in svc.namespace
  }

  /** The record carries the tags of its holders and no others. */
  ghost predicate TaggedFor(cfg: Settings, r: IPRecord, holders: set<ServiceName>) {
    && r.project == cfg.project && r.iptype == EPHEMERAL
    && (forall s :: s in holders ==> Slashless(cfg, s) && ServiceTag(cfg, s) in r.tags)
    && (forall t :: t in r.tags ==> exists s :: s in holders && t == ServiceTag(cfg, s))
  }

  /** An address acquired by the controller is there exactly while a service holds it, and
      its tags are those of its holders. */
  ghost predicate Counted(cfg: Settings, inv: Inventory, refs: References) {
    forall a :: a in refs ==>
      (a in inv <==> refs[a] != {}) && (a in inv ==> TaggedFor(cfg, inv[a], refs[a]))
  }

  lemma TagNamesService(cfg: Settings, s: ServiceName, s': ServiceName)
    requires Slashless(cfg, s) && Slashless(cfg, s')
    ensures ServiceTag(cfg, s) == ServiceTag(cfg, s') ==> s == s'
  {
    if ServiceTag(cfg, s) == ServiceTag(cfg, s') {
      BuildInjective(cfg.clusterID, s.namespace, s.name, cfg.clusterID, s'.namespace, s'.name);
    }
  }

  /** Detaching a service, if it holds the address, is dropping its reference. */
  lemma DetachDropsReference(cfg: Settings, r: IPRecord, holders: set<ServiceName>, svc: ServiceName)
    requires TaggedFor(cfg, r, holders) && Slashless(cfg, svc) && holders != {}
    ensures ServiceTag(cfg, svc) in r.tags <==> svc in holders
    ensures var after := Detached(r, ServiceTag(cfg, svc), 0);
            && (after.None? <==> holders - {svc} == {})
            && (after.Some? ==> TaggedFor(cfg, after.value, holders - {svc}))
  {
    var tag, rest := ServiceTag(cfg, svc), holders - {svc};
    KeptIsExact(r.tags, tag);
    forall s | s in holders { TagNamesService(cfg, s, svc); }
    var kept := Kept(r.tags, tag);
    if s :| s in rest {
      assert ServiceTag(cfg, s) in kept;
    } else if kept != [] {
      assert kept[0] in kept;
    }
    forall t | t in kept ensures exists s :: s in rest && t == ServiceTag(cfg, s) {
      var s :| s in holders && t == ServiceTag(cfg, s);
      assert s in rest;
    }
  }

  lemma NoFailuresDetach(ips: seq<IPResponse>, inv: Inventory, chosen: set<string>, plan: seq<nat>, attempts: nat,
                         a: string)
    requires IsListing(ips, inv, chosen) && NoFailures(plan, |ips|) && attempts > 0
    ensures DetachedAfter(ips, plan, attempts, a) == if a in chosen then Some(0) else None
  {
    CompleteDetaches(ips, inv, chosen, plan, attempts, a);
  }

  lemma CountedStep(cfg: Settings, inv: Inventory, refs: References, run: Run)
    requires ValidRun(cfg, inv, run) && FailureFree(cfg, inv, run) && Slashless(cfg, run.svc)
    requires Counted(cfg, inv, refs)
    ensures Counted(cfg, After(cfg, inv, run), ReferencesAfter(refs, run))
  {
    var after, refs' := After(cfg, inv, run), ReferencesAfter(refs, run);
    forall a | a in refs'
      ensures (a in after <==> refs'[a] != {}) && (a in after ==> TaggedFor(cfg, after[a], refs'[a]))
    {
      RunEffect(cfg, inv, run, a);
      LookupIs(after, a);
      CountedAt(cfg, inv, refs, run, a);
    }
  }

  lemma CountedAt(cfg: Settings, inv: Inventory, refs: References, run: Run, a: string)
    requires ValidRun(cfg, inv, run) && FailureFree(cfg, inv, run) && Slashless(cfg, run.svc)
    requires Counted(cfg, inv, refs) && a in ReferencesAfter(refs, run)
    ensures var r, holders := RecordAfter(cfg, inv, run, a), ReferencesAfter(refs, run)[a];
            (r.Some? <==> holders != {}) && (r.Some? ==> TaggedFor(cfg, r.value, holders))
  {
    if run.AutoRun? {
      if run.end.Acquired? && a == run.address {
        assert run.svc in {run.svc};
      }
    } else if run.list.Some? && a in inv {
      if run.FixedRun? && a == run.address {
        NotReserved(cfg, inv[a], refs[a]);
        AttachAddsReference(cfg, inv[a], refs[a], run.svc);
      } else {
        DetachedCounted(cfg, inv, refs, run, a);
      }
    }
  }

  lemma DetachedCounted(cfg: Settings, inv: Inventory, refs: References, run: Run, a: string)
    requires ValidRun(cfg, inv, run) && FailureFree(cfg, inv, run) && Slashless(cfg, run.svc)
    requires Counted(cfg, inv, refs) && a in refs && a in inv
    requires !run.AutoRun? && run.list.Some? && (run.FixedRun? ==> a != run.address)
    ensures var r, holders := RecordAfter(cfg, inv, run, a), refs[a] - {run.svc};
            (r.Some? <==> holders != {}) && (r.Some? ==> TaggedFor(cfg, r.value, holders))
  {
    var chosen := Carriers(inv, cfg, ServiceTag(cfg, run.svc)) - if run.FixedRun? then {run.address} else {};
    NoFailuresDetach(run.list.value, inv, chosen, run.plan, cfg.attempts, a);
    DetachDropsReference(cfg, inv[a], refs[a], run.svc);
    if run.svc !in refs[a] {
      assert refs[a] - {run.svc} == refs[a];
    }
  }

  lemma NotReserved(cfg: Settings, r: IPRecord, holders: set<ServiceName>)
    requires TaggedFor(cfg, r, holders)
    ensures !Reserved(r.tags, cfg.keys)
  {
    forall i | 0 <= i < |r.tags| ensures Key(r.tags[i]) == CLUSTER_SERVICE_FQN {
      assert r.tags[i] in r.tags;
      var s :| s in holders && r.tags[i] == ServiceTag(cfg, s);
      ServiceTagNotBlank(cfg, s);
    }
  }

  lemma AttachAddsReference(cfg: Settings, r: IPRecord, holders: set<ServiceName>, svc: ServiceName)
    requires TaggedFor(cfg, r, holders) && Slashless(cfg, svc)
    ensures TaggedFor(cfg, r.(tags := r.tags + [ServiceTag(cfg, svc)]), holders + {svc})
  {
    var all := holders + {svc};
    forall t | t in r.tags + [ServiceTag(cfg, svc)] ensures exists s :: s in all && t == ServiceTag(cfg, s) {
      if t in r.tags {
        var s :| s in holders && t == ServiceTag(cfg, s);
        assert s in all;
      } else {
        assert svc in all;
      }
    }
  }

  /** Over every failure-free run of acquiring, attaching, switching and deleting, over any
      number of services and shared addresses, the inventory counts references exactly. */
  lemma {:induction false} CountedOverRuns(cfg: Settings, inv: Inventory, refs: References, runs: seq<Run>)
    requires FailureFreeRuns(cfg, inv, runs)
    requires forall i :: 0 <= i < |runs| ==> Slashless(cfg, runs[i].svc)
    requires Counted(cfg, inv, refs)
    ensures Counted(cfg, AfterAll(cfg, inv, runs), ReferencesAfterAll(refs, runs))
  {
    if runs != [] {
      var front := runs[..|runs| - 1];
      CountedOverRuns(cfg, inv, refs, front);
      CountedStep(cfg, AfterAll(cfg, inv, front), ReferencesAfterAll(refs, front), runs[|runs| - 1]);
    }
  }

  /** With any failures: a deletion frees exactly the ephemeral addresses that carry nothing but
      the service's tag and whose first attempt succeeded; without failures, all of the former. */
  lemma DeleteFreesExactly(cfg: Settings, inv: Inventory, run: Run, a: string)
    requires ValidRun(cfg, inv, run) && run.DeleteRun? && a in inv
    ensures var unused := a in Carriers(inv, cfg, ServiceTag(cfg, run.svc)) && inv[a].iptype == EPHEMERAL
                          && forall t :: t in inv[a].tags ==> t == ServiceTag(cfg, run.svc);
            && (a !in After(cfg, inv, run)
                <==> unused && run.list.Some? && DetachedAfter(run.list.value, run.plan, cfg.attempts, a) == Some(0))
            && (FailureFree(cfg, inv, run) ==> (a !in After(cfg, inv, run) <==> unused))
  {
    var tag := ServiceTag(cfg, run.svc);
    RunEffect(cfg, inv, run, a);
    LookupIs(After(cfg, inv, run), a);
    ServiceTagNotBlank(cfg, run.svc);
    if run.list.Some? {
      var k := DetachedAfter(run.list.value, run.plan, cfg.attempts, a);
      DetachAllAt(inv, Carriers(inv, cfg, tag), run.list.value, tag, run.plan, cfg.attempts, a);
      if k.Some? {
        RetryCalls(Response(a, inv[a]), tag, k.value);
      }
      if FailureFree(cfg, inv, run) {
        NoFailuresDetach(run.list.value, inv, Carriers(inv, cfg, tag), run.plan, cfg.attempts, a);
      }
    }
  }
}
