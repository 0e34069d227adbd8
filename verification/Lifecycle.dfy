/** The operations of the load balancer controller on the IP inventory, as runs: what one
    operation saw, which of its calls failed, and the calls it sent (loadbalancer.go). */
module Lifecycle {
  import opened Wrappers
  import opened Tags
  import opened Metal
  import opened Detach

  /** The controller's fields that matter for addresses, and how often a detach is tried. */
  datatype Settings' = Settings(project: string, clusterID: string, keys: ReservedKeys, attempts: nat)
  type Settings = s: Settings' | s.attempts > 0 witness Settings("", "", ReservedKeys("m", "e"), 1)

  datatype ServiceName = ServiceName(namespace: string, name: string)

  function ServiceTag(cfg: Settings, svc: ServiceName): string {
    BuildClusterServiceFQNTag(cfg.clusterID, svc.namespace, svc.name)
  }

  /** The addresses of the project that carry a tag. */
  function Carriers(inv: Inventory, cfg: Settings, tag: string): set<string> {
    Selected(inv, Query(cfg.project, None, Some(tag)))
  }

  /** How far the last step of a fixed-address run came. */
  datatype Use = NotReached | Refused | Sent(ok: bool)

  /** How the acquisition of a fresh address ended. */
  datatype Acquisition = NotTried | NotAllocated | Acquired | RolledBack(cleared: bool, freed: bool)

  /** One finished operation. A missing list means that the searches before it failed;
      plan[i] counts the failed attempts on the i-th address of the list. */
  datatype Run =
    | AutoRun(svc: ServiceName, network: string, address: string, end: Acquisition)
    | FixedRun(svc: ServiceName, address: string, list: Option<seq<IPResponse>>, plan: seq<nat>, use: Use)
    | DeleteRun(svc: ServiceName, list: Option<seq<IPResponse>>, plan: seq<nat>)

  function FreshRecord(cfg: Settings, run: Run): IPRecord
    requires run.AutoRun?
  {
    IPRecord(cfg.project, Some(run.network), EPHEMERAL, [ServiceTag(cfg, run.svc)])
  }

  predicate InProject(cfg: Settings, inv: Inventory, address: string) {
    address in inv && inv[address].project == cfg.project
  }

  /** The runs that the controller's code can produce, starting in an inventory. */
  ghost predicate ValidRun(cfg: Settings, inv: Inventory, run: Run) {
    match run
    case AutoRun(svc, network, address, end) =>
      end.NotTried? || end.NotAllocated? || address !in inv
    case FixedRun(svc, address, None, plan, use) =>
      plan == [] && use.NotReached?
    case FixedRun(svc, address, Some(others), plan, use) =>
      && InProject(cfg, inv, address)
      && IsListing(others, inv, Carriers(inv, cfg, ServiceTag(cfg, svc)) - {address})
      && match use {
           case NotReached => Broken(plan, |others|, cfg.attempts)
           case Refused => Complete(plan, |others|, cfg.attempts) && Reserved(inv[address].tags, cfg.keys)
           case Sent(_) => Complete(plan, |others|, cfg.attempts) && !Reserved(inv[address].tags, cfg.keys)
         }
    case DeleteRun(svc, None, plan) =>
      plan == []
    case DeleteRun(svc, Some(ips), plan) =>
      && IsListing(ips, inv, Carriers(inv, cfg, ServiceTag(cfg, svc)))
      && (Complete(plan, |ips|, cfg.attempts) || Broken(plan, |ips|, cfg.attempts))
  }

  /** The operation reported no error and did its work. */
  predicate Succeeded(cfg: Settings, run: Run) {
    match run
    case AutoRun(_, _, _, end) => end.Acquired?
    case FixedRun(_, _, _, _, use) => use == Sent(true)
    case DeleteRun(_, list, plan) => list.Some? && Complete(plan, |list.value|, cfg.attempts)
  }

  function AcquisitionLog(address: string, record: IPRecord, end: Acquisition): seq<Attempt> {
    match end
    case NotTried => []
    case NotAllocated => [Attempt(Allocate(address, record), false)]
    case Acquired => [Attempt(Allocate(address, record), true)]
    case RolledBack(_, _) => [Attempt(Allocate(address, record), true)] + RollbackLog(address, end)
  }

  function RollbackLog(address: string, end: Acquisition): seq<Attempt>
    requires end.RolledBack?
  {
    [Attempt(Update(address, []), end.cleared)] + if end.cleared then [Attempt(Free(address), end.freed)] else []
  }

  function UseLog(address: string, tags: seq<string>, tag: string, use: Use): seq<Attempt> {
    if use.Sent? then [Attempt(Update(address, tags + [tag]), use.ok)] else []
  }

  /** The calls that an operation sends. */
  ghost function RunLog(cfg: Settings, inv: Inventory, run: Run): seq<Attempt>
    requires ValidRun(cfg, inv, run)
  {
    match run
    case AutoRun(_, _, address, end) => AcquisitionLog(address, FreshRecord(cfg, run), end)
    case FixedRun(_, _, None, _, _) => []
    case FixedRun(svc, address, Some(others), plan, use) =>
      DetachAllLog(others, ServiceTag(cfg, svc), plan, cfg.attempts)
      + UseLog(address, inv[address].tags, ServiceTag(cfg, svc), use)
    case DeleteRun(_, None, _) => []
    case DeleteRun(svc, Some(ips), plan) => DetachAllLog(ips, ServiceTag(cfg, svc), plan, cfg.attempts)
  }

  ghost function After(cfg: Settings, inv: Inventory, run: Run): Inventory
    requires ValidRun(cfg, inv, run)
  {
    Replay(inv, RunLog(cfg, inv, run))
  }

  ghost predicate ValidRuns(cfg: Settings, inv: Inventory, runs: seq<Run>)
    decreases |runs|, 0
  {
    runs == [] ||
    var front := runs[..|runs| - 1];
    ValidRuns(cfg, inv, front) && ValidRun(cfg, AfterAll(cfg, inv, front), runs[|runs| - 1])
  }

  /** One operation after the other. */
  ghost function AfterAll(cfg: Settings, inv: Inventory, runs: seq<Run>): Inventory
    requires ValidRuns(cfg, inv, runs)
    decreases |runs|, 1
  {
    if runs == [] then inv
    else After(cfg, AfterAll(cfg, inv, runs[..|runs| - 1]), runs[|runs| - 1])
  }

  // ---- the meaning of a run, address by address ----

  /** The number of failures before an address on the list was detached, if it was. */
  ghost function DetachedAfter(ips: seq<IPResponse>, plan: seq<nat>, attempts: nat, a: string): Option<nat>
    requires |plan| <= |ips|
  {
    if i :| 0 <= i < |plan| && ips[i].ipaddress == Some(a) && plan[i] < attempts then Some(plan[i]) else None
  }

  /** What a run leaves under an address. */
  ghost function RecordAfter(cfg: Settings, inv: Inventory, run: Run, a: string): Option<IPRecord>
    requires ValidRun(cfg, inv, run)
  {
    match run
    case AutoRun(_, _, address, end) =>
      if a != address then Lookup(inv, a)
      else if end.Acquired? || (end.RolledBack? && !end.cleared) then Some(FreshRecord(cfg, run))
      else if end.RolledBack? && !end.freed then Some(FreshRecord(cfg, run).(tags := []))
      else Lookup(inv, a)
    case FixedRun(_, _, None, _, _) => Lookup(inv, a)
    case FixedRun(svc, address, Some(others), plan, use) =>
      if a == address then
        Some(inv[a].(tags := inv[a].tags + if use == Sent(true) then [ServiceTag(cfg, svc)] else []))
      else
        var k := DetachedAfter(others, plan, cfg.attempts, a);
        if k.Some? && a in inv then Detached(inv[a], ServiceTag(cfg, svc), k.value) else Lookup(inv, a)
    case DeleteRun(_, None, _) => Lookup(inv, a)
    case DeleteRun(svc, Some(ips), plan) =>
      var k := DetachedAfter(ips, plan, cfg.attempts, a);
      if k.Some? && a in inv then Detached(inv[a], ServiceTag(cfg, svc), k.value) else Lookup(inv, a)
  }

  lemma DetachAllAt(inv: Inventory, chosen: set<string>, ips: seq<IPResponse>, tag: string,
                    plan: seq<nat>, attempts: nat, a: string)
    requires IsListing(ips, inv, chosen) && |plan| <= |ips|
    ensures var k := DetachedAfter(ips, plan, attempts, a);
            && (k.Some? ==> a in chosen && k.value < attempts)
            && Lookup(Replay(inv, DetachAllLog(ips, tag, plan, attempts)), a)
               == if k.Some? then Detached(inv[a], tag, k.value) else Lookup(inv, a)
  {
    DetachAllEffect(inv, chosen, ips, tag, plan, attempts);
    var after := Replay(inv, DetachAllLog(ips, tag, plan, attempts));
    if i :| 0 <= i < |plan| && ips[i].ipaddress == Some(a) {
      assert a == ips[i].ipaddress.value;
      assert forall j :: 0 <= j < |plan| && ips[j].ipaddress == Some(a) ==> j == i;
    }
  }

  lemma AcquisitionEffect(inv: Inventory, address: string, record: IPRecord, end: Acquisition)
    ensures Replay(inv, AcquisitionLog(address, record, end)) ==
            match end {
              case NotTried | NotAllocated => inv
              case Acquired => inv[address := record]
              case RolledBack(cleared, freed) =>
                if !cleared then inv[address := record]
                else if !freed then inv[address := record.(tags := [])]
                else inv - {address}
            }
  {
    var log := AcquisitionLog(address, record, end);
    var first := Attempt(Allocate(address, record), true);
    ReplaySnoc(inv, [], first);
    ReplaySnoc(inv, [], Attempt(Allocate(address, record), false));
    assert [] + [first] == [first];
    if end.RolledBack? {
      var clear := Attempt(Update(address, []), end.cleared);
      ReplaySnoc(inv, [first], clear);
      assert [first] + [clear] == [first, clear];
      if end.cleared {
        assert log == [first, clear] + [Attempt(Free(address), end.freed)];
        ReplaySnoc(inv, [first, clear], Attempt(Free(address), end.freed));
        assert inv[address := record.(tags := [])] - {address} == inv - {address};
      } else {
        assert log == [first, clear];
      }
    }
  }

  /** The log of a run does to every address what `RecordAfter` says. */
  lemma RunEffect(cfg: Settings, inv: Inventory, run: Run, a: string)
    requires ValidRun(cfg, inv, run)
    ensures Lookup(After(cfg, inv, run), a) == RecordAfter(cfg, inv, run, a)
  {
    match run
    case AutoRun(_, _, address, end) =>
      AcquisitionEffect(inv, address, FreshRecord(cfg, run), end);
    case FixedRun(_, _, None, _, _) =>
    case FixedRun(svc, address, Some(others), plan, use) =>
      var tag := ServiceTag(cfg, svc);
      var chosen := Carriers(inv, cfg, tag) - {address};
      var log, last := DetachAllLog(others, tag, plan, cfg.attempts), UseLog(address, inv[address].tags, tag, use);
      DetachAllAt(inv, chosen, others, tag, plan, cfg.attempts, a);
      DetachAllAt(inv, chosen, others, tag, plan, cfg.attempts, address);
      if use.Sent? {
        ReplaySnoc(inv, log, Attempt(Update(address, inv[address].tags + [tag]), use.ok));
      } else {
        assert log + last == log;
      }
      assert inv[address].tags + [] == inv[address].tags;
    case DeleteRun(_, None, _) =>
    case DeleteRun(svc, Some(ips), plan) =>
      DetachAllAt(inv, Carriers(inv, cfg, ServiceTag(cfg, svc)), ips, ServiceTag(cfg, svc), plan, cfg.attempts, a);
  }

  lemma CompleteDetaches(ips: seq<IPResponse>, inv: Inventory, chosen: set<string>, plan: seq<nat>, attempts: nat,
                         a: string)
    requires IsListing(ips, inv, chosen) && Complete(plan, |ips|, attempts)
    ensures DetachedAfter(ips, plan, attempts, a).Some? <==> a in chosen
  {
    if a in chosen {
      var i :| 0 <= i < |ips| && ips[i].ipaddress == Some(a);
      assert plan[i] < attempts;
    }
  }

  lemma DetachedLosesTag(r: IPRecord, tag: string, k: nat)
    requires tag != ""
    ensures var after := Detached(r, tag, k);
            after.Some? ==> tag !in after.value.tags
                            && (forall t :: t in after.value.tags ==> t in r.tags || t == "")
                            && (forall t :: t in r.tags && t != tag ==> t in after.value.tags)
                            && after.value == r.(tags := after.value.tags)
    ensures Detached(r, tag, k).None? ==> r.iptype == EPHEMERAL && forall t :: t in r.tags ==> t == tag
  {
    KeptIsExact(r.tags, tag);
    if k > 0 {
      TagsAfterFirstAttempt(r.tags, tag, k);
      assert forall t :: t in Kept(r.tags, tag) ==> t in Compacted(r.tags, tag);
    }
  }
}
