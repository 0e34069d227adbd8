/** What one operation guarantees, whatever earlier operations left behind: recovery from
    leftover tags, progress of deletion across failures, and rollback of an acquisition. */
module Recovery {
  import opened Wrappers
  import opened Tags
  import opened Metal
  import opened Detach
  import opened Lifecycle

  lemma ServiceTagNotBlank(cfg: Settings, svc: ServiceName)
    ensures ServiceTag(cfg, svc) != "" && Key(ServiceTag(cfg, svc)) == CLUSTER_SERVICE_FQN
  {
    BuiltTagSplits(cfg.clusterID, svc.namespace, svc.name);
  }

  lemma LookupIs(inv: Inventory, a: string)
    ensures a in inv <==> Lookup(inv, a).Some?
    ensures a in inv ==> inv[a] == Lookup(inv, a).value
  {
  }

  /** A successful deletion leaves the tag nowhere, however often it was put on an address. */
  lemma DeleteLeavesNoCarrier(cfg: Settings, inv: Inventory, run: Run)
    requires ValidRun(cfg, inv, run) && run.DeleteRun? && Succeeded(cfg, run)
    ensures Carriers(After(cfg, inv, run), cfg, ServiceTag(cfg, run.svc)) == {}
  {
    var tag := ServiceTag(cfg, run.svc);
    ServiceTagNotBlank(cfg, run.svc);
    forall a | a in Carriers(After(cfg, inv, run), cfg, tag) ensures false {
      RunEffect(cfg, inv, run, a);
      CompleteDetaches(run.list.value, inv, Carriers(inv, cfg, tag), run.plan, cfg.attempts, a);
      forall r, k { DetachedLosesTag(r, tag, k); }
    }
  }

  /** A successful run with a fixed address leaves the tag on that address alone, appended to
      the tags the address had. */
  lemma FixedLeavesOneCarrier(cfg: Settings, inv: Inventory, run: Run)
    requires ValidRun(cfg, inv, run) && run.FixedRun? && Succeeded(cfg, run)
    ensures var after := After(cfg, inv, run);
            && Carriers(after, cfg, ServiceTag(cfg, run.svc)) == {run.address}
            && after[run.address] == inv[run.address].(tags := inv[run.address].tags + [ServiceTag(cfg, run.svc)])
  {
    var tag, after := ServiceTag(cfg, run.svc), After(cfg, inv, run);
    ServiceTagNotBlank(cfg, run.svc);
    RunEffect(cfg, inv, run, run.address);
    forall a | a in Carriers(after, cfg, tag) ensures a == run.address {
      if a != run.address {
        RunEffect(cfg, inv, run, a);
        CompleteDetaches(run.list.value, inv, Carriers(inv, cfg, tag) - {run.address}, run.plan, cfg.attempts, a);
        forall r, k { DetachedLosesTag(r, tag, k); }
      }
    }
  }

  /** The addresses a run has finished with: all of the plan, or all but the one it broke on. */
  function Finished(plan: seq<nat>, n: nat, attempts: nat): nat {
    if Broken(plan, n, attempts) then |plan| - 1 else |plan|
  }

  ghost function Prefix(ips: seq<IPResponse>, n: nat): set<string>
    requires n <= |ips| && Addressed(ips)
  {
    set i | 0 <= i < n :: ips[i].ipaddress.value
  }

  lemma {:induction false} PrefixSize(ips: seq<IPResponse>, n: nat)
    requires Addressed(ips) && n <= |ips|
    requires forall i, j :: 0 <= i < j < |ips| ==> ips[i].ipaddress != ips[j].ipaddress
    ensures |Prefix(ips, n)| == n
  {
    if n > 0 {
      var a := ips[n - 1].ipaddress.value;
      PrefixSize(ips, n - 1);
      assert Prefix(ips, n) == Prefix(ips, n - 1) + {a};
      forall i | 0 <= i < n - 1 ensures ips[i].ipaddress.value != a {
        assert ips[i].ipaddress != ips[n - 1].ipaddress;
      }
    }
  }

  /** The number of carriers is the progress of deletion: a run takes the tag off exactly the
      addresses it finished with, so also a failing run never makes the rest longer. */
  lemma DeleteProgress(cfg: Settings, inv: Inventory, run: Run)
    requires ValidRun(cfg, inv, run) && run.DeleteRun?
    ensures var tag := ServiceTag(cfg, run.svc);
            var done := if run.list.None? then 0 else Finished(run.plan, |run.list.value|, cfg.attempts);
            && Carriers(After(cfg, inv, run), cfg, tag) <= Carriers(inv, cfg, tag)
            && |Carriers(After(cfg, inv, run), cfg, tag)| == |Carriers(inv, cfg, tag)| - done
  {
    var tag, after := ServiceTag(cfg, run.svc), After(cfg, inv, run);
    if run.list.Some? {
      var ips, before := run.list.value, Carriers(inv, cfg, tag);
      var done := Finished(run.plan, |ips|, cfg.attempts);
      PrefixSize(ips, done);
      assert Prefix(ips, done) <= before;
      forall a ensures a in Carriers(after, cfg, tag) <==> a in before && a !in Prefix(ips, done) {
        StillCarries(cfg, inv, run, a);
        FinishedAreDetached(ips, inv, before, run.plan, cfg.attempts, a);
      }
      assert Carriers(after, cfg, tag) == before - Prefix(ips, done);
    }
  }

  lemma StillCarries(cfg: Settings, inv: Inventory, run: Run, a: string)
    requires ValidRun(cfg, inv, run) && run.DeleteRun? && run.list.Some?
    ensures a in Carriers(After(cfg, inv, run), cfg, ServiceTag(cfg, run.svc))
            <==> a in Carriers(inv, cfg, ServiceTag(cfg, run.svc))
                 && DetachedAfter(run.list.value, run.plan, cfg.attempts, a).None?
  {
    var tag, ips := ServiceTag(cfg, run.svc), run.list.value;
    ServiceTagNotBlank(cfg, run.svc);
    RunEffect(cfg, inv, run, a);
    LookupIs(After(cfg, inv, run), a);
    DetachAllAt(inv, Carriers(inv, cfg, tag), ips, tag, run.plan, cfg.attempts, a);
    var k := DetachedAfter(ips, run.plan, cfg.attempts, a);
    if k.Some? {
      DetachedLosesTag(inv[a], tag, k.value);
    }
  }

  lemma FinishedAreDetached(ips: seq<IPResponse>, inv: Inventory, chosen: set<string>, plan: seq<nat>, attempts: nat,
                            a: string)
    requires IsListing(ips, inv, chosen)
    requires Complete(plan, |ips|, attempts) || Broken(plan, |ips|, attempts)
    ensures DetachedAfter(ips, plan, attempts, a).Some? <==> a in Prefix(ips, Finished(plan, |ips|, attempts))
  {
    var done := Finished(plan, |ips|, attempts);
    var front := if Broken(plan, |ips|, attempts) then plan[..|plan| - 1] else plan;
    assert forall i :: 0 <= i < done ==> front[i] == plan[i] && plan[i] < attempts;
    if a in Prefix(ips, done) {
      var i :| 0 <= i < done && ips[i].ipaddress.value == a;
      assert ips[i].ipaddress == Some(a);
    }
  }

  // ---- who acquires and who frees ----

  /** The call neither acquires an address nor leaves the tag on one. */
  predicate Removes(call: Call, tag: string) {
    !call.Allocate? && (call.Update? ==> tag !in call.tags)
  }

  predicate OnlyRemoves(log: seq<Attempt>, tag: string) {
    forall i :: 0 <= i < |log| ==> Removes(log[i].call, tag)
  }

  lemma OnlyRemovesConcat(a: seq<Attempt>, b: seq<Attempt>, tag: string)
    requires OnlyRemoves(a, tag) && OnlyRemoves(b, tag)
    ensures OnlyRemoves(a + b, tag)
  {
  }

  lemma {:induction false} FailedAttemptsOnlyRemove(ip: IPResponse, tag: string, n: nat)
    requires ip.ipaddress.Some? && tag != ""
    ensures OnlyRemoves(FailedAttempts(ip, tag, n), tag)
  {
    if n > 0 {
      FailedAttemptsOnlyRemove(ip, tag, n - 1);
      RetryCalls(ip, tag, n - 1);
      OnlyRemovesConcat(FailedAttempts(ip, tag, n - 1), [Attempt(DetachCall(ip, tag, n - 1), false)], tag);
    }
  }

  lemma DetachOnlyRemoves(ip: IPResponse, tag: string, fails: nat, attempts: nat)
    requires ip.ipaddress.Some? && tag != ""
    ensures OnlyRemoves(DetachLog(ip, tag, fails, attempts), tag)
  {
    FailedAttemptsOnlyRemove(ip, tag, fails);
    if fails < attempts {
      RetryCalls(ip, tag, fails);
      OnlyRemovesConcat(FailedAttempts(ip, tag, fails), [Attempt(DetachCall(ip, tag, fails), true)], tag);
    } else {
      assert FailedAttempts(ip, tag, fails) + [] == FailedAttempts(ip, tag, fails);
    }
  }

  lemma {:induction false} DetachingOnlyRemoves(ips: seq<IPResponse>, tag: string, plan: seq<nat>, attempts: nat)
    requires Addressed(ips) && |plan| <= |ips| && tag != ""
    ensures OnlyRemoves(DetachAllLog(ips, tag, plan, attempts), tag)
  {
    if plan != [] {
      var n := |plan| - 1;
      DetachingOnlyRemoves(ips, tag, plan[..n], attempts);
      DetachOnlyRemoves(ips[n], tag, plan[n], attempts);
      OnlyRemovesConcat(DetachAllLog(ips, tag, plan[..n], attempts), DetachLog(ips[n], tag, plan[n], attempts), tag);
    }
  }

  /** No address is acquired for a service that asks for a fixed one or is deleted, and the only
      call that ever adds a tag to an address is the last one of a run for that fixed address. */
  lemma FixedAndDeleteAcquireNothing(cfg: Settings, inv: Inventory, run: Run)
    requires ValidRun(cfg, inv, run) && !run.AutoRun?
    ensures var log, tag := RunLog(cfg, inv, run), ServiceTag(cfg, run.svc);
            forall i :: 0 <= i < |log| ==>
              Removes(log[i].call, tag)
              || (run.FixedRun? && i == |log| - 1 && log[i].call.Update? && log[i].call.address == run.address)
  {
    var log, tag := RunLog(cfg, inv, run), ServiceTag(cfg, run.svc);
    ServiceTagNotBlank(cfg, run.svc);
    if run.list.Some? {
      DetachingOnlyRemoves(run.list.value, tag, run.plan, cfg.attempts);
      var detach := DetachAllLog(run.list.value, tag, run.plan, cfg.attempts);
      assert forall i :: 0 <= i < |detach| ==> log[i] == detach[i];
    }
  }

  // ---- rollback ----

  /** The inventory is the old one exactly when nothing was acquired or the rollback went
      through; otherwise only the fresh address is left over. A service that still asks for a
      rolled back address can then neither succeed nor send anything. */
  lemma RollbackRestores(cfg: Settings, inv: Inventory, run: Run)
    requires run.AutoRun? && run.address !in inv
    ensures ValidRun(cfg, inv, run)
    ensures After(cfg, inv, run) - {run.address} == inv
    ensures After(cfg, inv, run) == inv
            <==> run.end.NotTried? || run.end.NotAllocated? || run.end == RolledBack(true, true)
    ensures run.end == RolledBack(true, true) ==>
              var after := After(cfg, inv, run);
              forall next: Run :: ValidRun(cfg, after, next) && next.FixedRun? && next.address == run.address ==>
                !Succeeded(cfg, next) && RunLog(cfg, after, next) == []
  {
    AcquisitionEffect(inv, run.address, FreshRecord(cfg, run), run.end);
    assert inv - {run.address} == inv;
    var after := After(cfg, inv, run);
    if run.end.Acquired? || (run.end.RolledBack? && run.end != RolledBack(true, true)) {
      assert run.address in after;
    }
  }

  /** The attempts of a log on other addresses. */
  function Without(log: seq<Attempt>, a: string): seq<Attempt> {
    if log == [] then []
    else
      var last := log[|log| - 1];
      Without(log[..|log| - 1], a) + if last.call.address == a then [] else [last]
  }

  lemma EffectIsLocal(m: Inventory, m': Inventory, call: Call, b: string)
    ensures Lookup(m, b) == Lookup(m', b) ==> Lookup(Effect(m, call), b) == Lookup(Effect(m', call), b)
    ensures call.address != b ==> Lookup(Effect(m, call), b) == Lookup(m, b)
  {
  }

  /** The calls of a log on one address decide nothing about another address. */
  lemma {:induction false} OthersCallsDecide(inv: Inventory, log: seq<Attempt>, a: string, b: string)
    ensures Lookup(Replay(inv, Without(log, a)), b) == if b == a then Lookup(inv, b) else Lookup(Replay(inv, log), b)
  {
    if log != [] {
      var front, last := log[..|log| - 1], log[|log| - 1];
      OthersCallsDecide(inv, front, a, b);
      EffectIsLocal(Replay(inv, front), Replay(inv, Without(front, a)), last.call, b);
      EffectIsLocal(Replay(inv, Without(front, a)), Replay(inv, front), last.call, b);
      if last.call.address == a {
        assert Without(log, a) == Without(front, a);
      } else {
        ReplaySnoc(inv, Without(front, a), last);
      }
    }
  }

  predicate NeverAllocates(log: seq<Attempt>, a: string) {
    forall i :: 0 <= i < |log| && log[i].ok ==> !(log[i].call.Allocate? && log[i].call.address == a)
  }

  lemma {:induction false} StaysAbsent(inv: Inventory, log: seq<Attempt>, a: string)
    requires a !in inv && NeverAllocates(log, a)
    ensures a !in Replay(inv, log)
  {
    if log != [] {
      StaysAbsent(inv, log[..|log| - 1], a);
    }
  }

  /** Rollback conserves the inventory next to any calls of other operations, at any
      interleaving and also on the fresh address itself: once the Free has succeeded, the
      outcome is that of the calls on other addresses alone, exactly unless somebody has
      acquired the address again since. */
  lemma RollbackCommutesWithOthers(inv: Inventory, before: seq<Attempt>, after: seq<Attempt>, address: string)
    requires address !in inv
    ensures var log := before + [Attempt(Free(address), true)] + after;
            && (Replay(inv, log) == Replay(inv, Without(log, address)) <==> address !in Replay(inv, log))
            && (NeverAllocates(after, address) ==> address !in Replay(inv, log))
  {
    var freed := before + [Attempt(Free(address), true)];
    var log := freed + after;
    var all, others := Replay(inv, log), Replay(inv, Without(log, address));
    OthersCallsDecide(inv, log, address, address);
    LookupIs(others, address);
    ReplaySnoc(inv, before, Attempt(Free(address), true));
    ReplayConcat(inv, freed, after);
    if NeverAllocates(after, address) {
      StaysAbsent(Replay(inv, freed), after, address);
    }
    if address !in all {
      forall b ensures Lookup(all, b) == Lookup(others, b) {
        OthersCallsDecide(inv, log, address, b);
      }
      SameLookups(all, others);
    }
  }

  /** A call sent while a rollback is under way, by the rollback or by another operation. */
  datatype Entry = Entry(attempt: Attempt, rollback: bool)

  function Attempts(log: seq<Entry>): seq<Attempt> {
    if log == [] then [] else Attempts(log[..|log| - 1]) + [log[|log| - 1].attempt]
  }

  function ByOthers(log: seq<Entry>): seq<Attempt> {
    if log == [] then []
    else
      var last := log[|log| - 1];
      ByOthers(log[..|log| - 1]) + if last.rollback then [] else [last.attempt]
  }

  predicate Carries(inv: Inventory, a: string, t: string) {
    a in inv && t in inv[a].tags
  }

  /** A caller can see that nobody but the holder of the tag uses the address. */
  predicate UsedByNoOther(inv: Inventory, a: string, own: string) {
    a in inv ==> forall t :: t in inv[a].tags ==> t == own
  }

  /** Every tag that the others' calls alone would have left on the address is there. */
  ghost predicate NothingMissing(inv: Inventory, log: seq<Entry>, a: string, own: string) {
    forall t :: t != own && Carries(Replay(inv, ByOthers(log)), a, t) ==> Carries(Replay(inv, Attempts(log)), a, t)
  }

  /** At every moment: the rollback takes the address from no other service. */
  ghost predicate TakesNothing(inv: Inventory, log: seq<Entry>, a: string, own: string) {
    NothingMissing(inv, log, a, own) && (log == [] || TakesNothing(inv, log[..|log| - 1], a, own))
  }

  /** Whenever a call of the rollback takes effect, no other service uses the address. */
  predicate UnusedAtRollback(inv: Inventory, log: seq<Entry>, a: string, own: string) {
    log == []
    || var front, last := log[..|log| - 1], log[|log| - 1];
       && UnusedAtRollback(inv, front, a, own)
       && (last.rollback && last.attempt.ok ==> UsedByNoOther(Replay(inv, Attempts(front)), a, own))
  }

  predicate OnlyClears(log: seq<Entry>, a: string) {
    forall i :: 0 <= i < |log| && log[i].rollback ==> log[i].attempt.call == Update(a, [])
  }

  /** The rollback clears the tags, and frees the address at the end. */
  predicate RollsBack(log: seq<Entry>, a: string) {
    log == [] ||
    (OnlyClears(log[..|log| - 1], a)
     && var last := log[|log| - 1];
        last.rollback ==> last.attempt.call == Update(a, []) || last.attempt.call == Free(a))
  }

  ghost predicate Alike(inv: Inventory, inv': Inventory, a: string, own: string) {
    && (a in inv <==> a in inv')
    && (a in inv ==> forall t :: t != own ==> (t in inv[a].tags <==> t in inv'[a].tags))
  }

  lemma StayAlike(inv: Inventory, inv': Inventory, e: Attempt, a: string, own: string)
    requires Alike(inv, inv', a, own)
    ensures Alike(if e.ok then Effect(inv, e.call) else inv, if e.ok then Effect(inv', e.call) else inv', a, own)
  {
  }

  lemma {:induction false} UnusedIsAlike(inv: Inventory, log: seq<Entry>, a: string, own: string)
    requires OnlyClears(log, a) && UnusedAtRollback(inv, log, a, own)
    ensures Alike(Replay(inv, Attempts(log)), Replay(inv, ByOthers(log)), a, own)
  {
    if log != [] {
      var front, last := log[..|log| - 1], log[|log| - 1];
      UnusedIsAlike(inv, front, a, own);
      var all, others := Replay(inv, Attempts(front)), Replay(inv, ByOthers(front));
      ReplaySnoc(inv, Attempts(front), last.attempt);
      if last.rollback {
        assert ByOthers(log) == ByOthers(front);
      } else {
        ReplaySnoc(inv, ByOthers(front), last.attempt);
        StayAlike(all, others, last.attempt, a, own);
      }
    }
  }

  /** A clear or a Free of an address that looks as the others left it takes nothing from them
      exactly if nobody else uses it. */
  lemma LastCallTakesNothing(inv: Inventory, log: seq<Entry>, a: string, own: string)
    requires log != [] && RollsBack(log, a)
    requires var front := log[..|log| - 1];
             Alike(Replay(inv, Attempts(front)), Replay(inv, ByOthers(front)), a, own)
    ensures var front, last := log[..|log| - 1], log[|log| - 1];
            NothingMissing(inv, log, a, own)
            <==> (last.rollback && last.attempt.ok ==> UsedByNoOther(Replay(inv, Attempts(front)), a, own))
  {
    var front, last := log[..|log| - 1], log[|log| - 1];
    var all, others := Replay(inv, Attempts(front)), Replay(inv, ByOthers(front));
    ReplaySnoc(inv, Attempts(front), last.attempt);
    if last.rollback {
      assert ByOthers(log) == ByOthers(front);
      if last.attempt.ok && !UsedByNoOther(all, a, own) {
        var t :| t in all[a].tags && t != own;
        assert Carries(others, a, t) && !Carries(Replay(inv, Attempts(log)), a, t);
      }
    } else {
      ReplaySnoc(inv, ByOthers(front), last.attempt);
      StayAlike(all, others, last.attempt, a, own);
    }
  }

  /** Among any calls of others, with any failures: the rollback takes the address from no other
      service, at no moment, exactly if nobody else uses it whenever one of its calls takes effect. */
  lemma {:induction false} TakesNothingIff(inv: Inventory, log: seq<Entry>, a: string, own: string)
    requires RollsBack(log, a)
    ensures TakesNothing(inv, log, a, own) <==> UnusedAtRollback(inv, log, a, own)
  {
    if log != [] {
      var front := log[..|log| - 1];
      TakesNothingIff(inv, front, a, own);
      if UnusedAtRollback(inv, front, a, own) {
        UnusedIsAlike(inv, front, a, own);
        LastCallTakesNothing(inv, log, a, own);
      }
    }
  }

  function OthersSent(log: seq<Attempt>): seq<Entry> {
    seq(|log|, i requires 0 <= i < |log| => Entry(log[i], false))
  }

  /** The rollback's calls as the code sends them, with the calls of others around them. */
  function Interleaved(before: seq<Attempt>, between: seq<Attempt>, address: string, end: Acquisition): seq<Entry>
    requires end.RolledBack?
  {
    var cleared := OthersSent(before) + [Entry(Attempt(Update(address, []), end.cleared), true)];
    if end.cleared then cleared + OthersSent(between) + [Entry(Attempt(Free(address), end.freed), true)] else cleared
  }

  lemma {:induction false} OthersAdd(inv: Inventory, log: seq<Entry>, more: seq<Attempt>, a: string, own: string)
    ensures Attempts(log + OthersSent(more)) == Attempts(log) + more
    ensures UnusedAtRollback(inv, log + OthersSent(more), a, own) <==> UnusedAtRollback(inv, log, a, own)
  {
    if more == [] {
      assert log + OthersSent(more) == log;
    } else {
      var n := |more| - 1;
      OthersAdd(inv, log, more[..n], a, own);
      assert (log + OthersSent(more))[..|log| + n] == log + OthersSent(more[..n]);
      assert Attempts(log) + more[..n] + [more[n]] == Attempts(log) + more;
    }
  }

  lemma EntrySnoc(inv: Inventory, log: seq<Entry>, e: Entry, a: string, own: string)
    ensures Attempts(log + [e]) == Attempts(log) + [e.attempt]
    ensures UnusedAtRollback(inv, log + [e], a, own)
            <==> && UnusedAtRollback(inv, log, a, own)
                 && (e.rollback && e.attempt.ok ==> UsedByNoOther(Replay(inv, Attempts(log)), a, own))
  {
    assert (log + [e])[..|log|] == log;
  }

  lemma ClearedLog(inv: Inventory, before: seq<Attempt>, a: string, cleared: bool, own: string)
    ensures var clear := Attempt(Update(a, []), cleared);
            var log := OthersSent(before) + [Entry(clear, true)];
            && Attempts(log) == before + [clear]
            && (UnusedAtRollback(inv, log, a, own) <==> (cleared ==> UsedByNoOther(Replay(inv, before), a, own)))
  {
    OthersAdd(inv, [], before, a, own);
    assert [] + OthersSent(before) == OthersSent(before) && [] + before == before;
    EntrySnoc(inv, OthersSent(before), Entry(Attempt(Update(a, []), cleared), true), a, own);
  }

  lemma InterleavedRollsBack(before: seq<Attempt>, between: seq<Attempt>, address: string, end: Acquisition)
    requires end.RolledBack?
    ensures RollsBack(Interleaved(before, between, address, end), address)
  {
  }

  /** So the exact condition on the code's rollback, whatever others send between its calls:
      at its clear, and again at its Free, the address has no tag but the acquirer's. */
  lemma RollbackTakesNothingIff(inv: Inventory, before: seq<Attempt>, between: seq<Attempt>, address: string,
                                end: Acquisition, own: string)
    requires end.RolledBack?
    ensures var clear := Attempt(Update(address, []), end.cleared);
            TakesNothing(inv, Interleaved(before, between, address, end), address, own)
            <==> && (end.cleared ==> UsedByNoOther(Replay(inv, before), address, own))
                 && (end.cleared && end.freed ==>
                       UsedByNoOther(Replay(inv, before + [clear] + between), address, own))
  {
    ClearedLog(inv, before, address, end.cleared, own);
    InterleavedRollsBack(before, between, address, end);
    if end.cleared {
      var cleared := OthersSent(before) + [Entry(Attempt(Update(address, []), true), true)];
      OthersAdd(inv, cleared, between, address, own);
      EntrySnoc(inv, cleared + OthersSent(between), Entry(Attempt(Free(address), end.freed), true), address, own);
    }
    TakesNothingIff(inv, Interleaved(before, between, address, end), address, own);
  }

  /** And it fails: the rollback runs outside `ipUpdateMutex`, so that between the acquisition
      and the rollback another service can successfully be attached to the address, which the
      rollback then clears and frees. */
  lemma RollbackTakesAttachedAddress(cfg: Settings, inv: Inventory, run: Run, other: ServiceName)
    requires run.AutoRun? && run.end == RolledBack(true, true) && run.address !in inv
    requires ServiceTag(cfg, other) != ServiceTag(cfg, run.svc) && Carriers(inv, cfg, ServiceTag(cfg, other)) == {}
    ensures ValidRun(cfg, inv, run.(end := Acquired))
    ensures var acquired := After(cfg, inv, run.(end := Acquired));
            var attach := FixedRun(other, run.address, Some([]), [], Sent(true));
            && ValidRun(cfg, acquired, attach) && Succeeded(cfg, attach)
            && var attached := After(cfg, acquired, attach);
               && Carriers(attached, cfg, ServiceTag(cfg, other)) == {run.address}
               && Replay(attached, RollbackLog(run.address, run.end)) == inv
               && !TakesNothing(acquired, Interleaved(RunLog(cfg, acquired, attach), [], run.address, run.end),
                                run.address, ServiceTag(cfg, run.svc))
  {
    var a, own, tag := run.address, ServiceTag(cfg, run.svc), ServiceTag(cfg, other);
    var acquired := After(cfg, inv, run.(end := Acquired));
    AcquisitionEffect(inv, a, FreshRecord(cfg, run), Acquired);
    assert acquired == inv[a := FreshRecord(cfg, run)];
    ServiceTagNotBlank(cfg, run.svc);
    AttachToFresh(cfg, inv, a, FreshRecord(cfg, run), own, other);
    var attach := FixedRun(other, a, Some([]), [], Sent(true));
    var attached := After(cfg, acquired, attach);
    FixedLeavesOneCarrier(cfg, acquired, attach);
    RollbackTakesNothingIff(acquired, RunLog(cfg, acquired, attach), [], a, run.end, own);
    assert Carries(attached, a, tag);
    RollbackRemoves(attached, a);
    assert attached - {a} == inv;
  }

  lemma RollbackRemoves(inv: Inventory, a: string)
    ensures Replay(inv, RollbackLog(a, RolledBack(true, true))) == inv - {a}
  {
    var clear, free := Attempt(Update(a, []), true), Attempt(Free(a), true);
    ReplaySnoc(inv, [], clear);
    ReplaySnoc(inv, [clear], free);
    assert [] + [clear] == [clear];
    assert a in inv ==> inv[a := inv[a].(tags := [])] - {a} == inv - {a};
  }

  lemma NobodyElse(cfg: Settings, inv: Inventory, a: string, record: IPRecord, tag: string)
    requires tag !in record.tags && Carriers(inv, cfg, tag) == {}
    ensures Carriers(inv[a := record], cfg, tag) == {}
  {
    var carriers := Carriers(inv[a := record], cfg, tag);
    forall b | b in carriers ensures b in Carriers(inv, cfg, tag) {
    }
  }

  lemma AttachToFresh(cfg: Settings, inv: Inventory, a: string, record: IPRecord, own: string, other: ServiceName)
    requires a !in inv && record.project == cfg.project && record.tags == [own] && Key(own) == CLUSTER_SERVICE_FQN
    requires ServiceTag(cfg, other) != own && Carriers(inv, cfg, ServiceTag(cfg, other)) == {}
    ensures var acquired, attach := inv[a := record], FixedRun(other, a, Some([]), [], Sent(true));
            && ValidRun(cfg, acquired, attach)
            && After(cfg, acquired, attach) == inv[a := record.(tags := [own, ServiceTag(cfg, other)])]
  {
    var acquired, tag := inv[a := record], ServiceTag(cfg, other);
    NobodyElse(cfg, inv, a, record, tag);
    assert acquired[a] == record && !Reserved([own], cfg.keys);
    AttachAlone(cfg, acquired, a, other);
    assert [own] + [tag] == [own, tag];
    assert acquired[a := record.(tags := [own, tag])] == inv[a := record.(tags := [own, tag])];
  }

  /** A service without any address is attached to one by a single call. */
  lemma AttachAlone(cfg: Settings, inv: Inventory, a: string, svc: ServiceName)
    requires InProject(cfg, inv, a) && !Reserved(inv[a].tags, cfg.keys)
    requires Carriers(inv, cfg, ServiceTag(cfg, svc)) == {}
    ensures var attach := FixedRun(svc, a, Some([]), [], Sent(true));
            && ValidRun(cfg, inv, attach)
            && RunLog(cfg, inv, attach) == [Attempt(Update(a, inv[a].tags + [ServiceTag(cfg, svc)]), true)]
            && After(cfg, inv, attach) == inv[a := inv[a].(tags := inv[a].tags + [ServiceTag(cfg, svc)])]
  {
    var attach := FixedRun(svc, a, Some([]), [], Sent(true));
    var update := Attempt(Update(a, inv[a].tags + [ServiceTag(cfg, svc)]), true);
    assert ValidRun(cfg, inv, attach);
    assert [] + [update] == [update];
    ReplaySnoc(inv, [], update);
  }

  lemma SameLookups(m: Inventory, m': Inventory)
    requires forall b :: Lookup(m, b) == Lookup(m', b)
    ensures m == m'
  {
    forall b | b in m.Keys + m'.Keys
      ensures b in m && b in m' && m[b] == m'[b]
    {
      assert Lookup(m, b) == Lookup(m', b);
    }
    assert m.Keys == m'.Keys;
  }
}
