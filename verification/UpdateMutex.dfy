/** Fixed-address and delete operations running concurrently, one API call at a time, with
    `ipUpdateMutex` as the only coordination, and acquisitions that run at any time outside this
    mutex (loadbalancer.go). Each thread works on the responses it read; any call may fail. */
module UpdateMutex {
  import opened Wrappers
  import opened Tags
  import opened Metal
  import opened Detach
  import opened Lifecycle
  import opened Ownership

  /** An acquisition is one that is not rolled back. */
  datatype Operation = Fixed(svc: ServiceName, address: string) | Delete(svc: ServiceName) | Auto(svc: ServiceName)

  /** Where a thread stands, with what it has read so far: `read` and `own` are the response for
      the fixed address, `list` are the addresses to detach, |plan| of which are done, and
      `fails` counts the failed attempts on the next one. */
  datatype Thread =
    | Waiting
    | Locked
    | Found(read: IPResponse)
    | Detaching(own: Option<IPResponse>, list: seq<IPResponse>, plan: seq<nat>, fails: nat)
    | Unlocking(run: Run)
    | Done(run: Run)

  /** The other fields only record: `start` is the inventory when the owner of the mutex made its
      last search, and `sent` are its calls since; `history` are the finished runs, and `order`
      their threads. What is acquired while the owner is sending counts as `later` than its run. */
  datatype State = State(inv: Inventory, owner: Option<nat>, threads: seq<Thread>,
                         start: Inventory, sent: seq<Attempt>, order: seq<nat>, history: seq<Run>,
                         laterOrder: seq<nat>, later: seq<Run>)

  predicate InCritical(th: Thread) {
    !th.Waiting? && !th.Done?
  }

  /** The last search is made. */
  predicate Sending(th: Thread) {
    th.Detaching? || th.Unlocking?
  }

  predicate OwnerSends(s: State) {
    s.owner.Some? && s.owner.value < |s.threads| && Sending(s.threads[s.owner.value])
  }

  function Tag(cfg: Settings, op: Operation): string {
    ServiceTag(cfg, op.svc)
  }

  /** The addresses an operation has to detach. */
  function ToDetach(cfg: Settings, inv: Inventory, op: Operation): set<string> {
    Carriers(inv, cfg, Tag(cfg, op)) - if op.Fixed? then {op.address} else {}
  }

  function RunOf(op: Operation, list: Option<seq<IPResponse>>, plan: seq<nat>, use: Use): Run
    requires !op.Auto?
  {
    match op
    case Fixed(svc, address) => FixedRun(svc, address, list, plan, use)
    case Delete(svc) => DeleteRun(svc, list, plan)
  }

  ghost predicate Init(s: State, inv: Inventory) {
    && s == State(inv, None, s.threads, inv, [], [], [], [], [])
    && forall t :: 0 <= t < |s.threads| ==> s.threads[t].Waiting?
  }

  // ---- the steps of thread t ----

  /** AllocateIP, if it is tried: an address that is in use by nobody, or a failure. */
  predicate Allocates(cfg: Settings, op: Operation, s: State, s': State, t: nat)
    requires t < |s.threads|
  {
    && op.Auto? && s.threads[t].Waiting?
    && |s'.threads| == |s.threads| && s'.threads[t].Done? && Answers(op, s'.threads[t].run)
    && var run := s'.threads[t].run;
       var inv := if run.end.Acquired? then s.inv[run.address := FreshRecord(cfg, run)] else s.inv;
       var threads := s.threads[t := Done(run)];
       && (run.end.Acquired? ==> run.address !in s.inv)
       && s' == if OwnerSends(s) then
                  s.(inv := inv, threads := threads, laterOrder := s.laterOrder + [t], later := s.later + [run])
                else
                  s.(inv := inv, threads := threads, start := inv, order := s.order + [t], history := s.history + [run])
  }

  predicate Acquire(op: Operation, s: State, s': State, t: nat)
    requires t < |s.threads|
  {
    && !op.Auto? && s.threads[t].Waiting? && s.owner.None?
    && s' == s.(owner := Some(t), threads := s.threads[t := Locked], start := s.inv, sent := [])
  }

  /** A search answers from the current inventory, or fails. */
  ghost predicate Search(cfg: Settings, op: Operation, s: State, s': State, t: nat)
    requires t < |s.threads|
  {
    var th := s.threads[t];
    && (th.Locked? || th.Found?) && !op.Auto?
    && s' == s.(threads := s'.threads) && |s'.threads| == |s.threads| && s'.threads == s.threads[t := s'.threads[t]]
    && var th' := s'.threads[t];
       || th' == Unlocking(RunOf(op, None, [], NotReached))
       || (op.Fixed? && th.Locked? && InProject(cfg, s.inv, op.address)
           && th' == Found(Response(op.address, s.inv[op.address])))
       || (((op.Delete? && th.Locked?) || th.Found?)
           && th'.Detaching? && IsListing(th'.list, s.inv, ToDetach(cfg, s.inv, op))
           && th' == Detaching(if th.Found? then Some(th.read) else None, th'.list, [], 0))
  }

  function Call(s: State, call: Call, ok: bool): State {
    s.(inv := if ok then Effect(s.inv, call) else s.inv, sent := s.sent + [Attempt(call, ok)])
  }

  function AfterAttempt(cfg: Settings, op: Operation, th: Thread, ok: bool): Thread
    requires th.Detaching? && !op.Auto?
  {
    if ok then th.(plan := th.plan + [th.fails], fails := 0)
    else if th.fails + 1 < cfg.attempts then th.(fails := th.fails + 1)
    else Unlocking(RunOf(op, Some(th.list), th.plan + [cfg.attempts], NotReached))
  }

  /** One attempt to detach the next address, computed from what the thread read. */
  predicate DetachNext(cfg: Settings, op: Operation, s: State, s': State, t: nat, ok: bool)
    requires t < |s.threads|
  {
    var th := s.threads[t];
    && !op.Auto? && th.Detaching? && |th.plan| < |th.list| && th.list[|th.plan|].ipaddress.Some?
    && s' == Call(s, DetachCall(th.list[|th.plan|], Tag(cfg, op), th.fails), ok)
             .(threads := s.threads[t := AfterAttempt(cfg, op, th, ok)])
  }

  /** After the last address: done, or put the tag on the fixed address. */
  predicate Conclude(cfg: Settings, op: Operation, s: State, s': State, t: nat, ok: bool)
    requires t < |s.threads|
  {
    var th := s.threads[t];
    && !op.Auto? && th.Detaching? && |th.plan| >= |th.list|
    && if op.Delete? then
         s' == s.(threads := s.threads[t := Unlocking(RunOf(op, Some(th.list), th.plan, NotReached))])
       else
         && th.own.Some?
         && if Reserved(th.own.value.tags, cfg.keys) then
              s' == s.(threads := s.threads[t := Unlocking(RunOf(op, Some(th.list), th.plan, Refused))])
            else
              s' == Call(s, Update(op.address, th.own.value.tags + [Tag(cfg, op)]), ok)
                    .(threads := s.threads[t := Unlocking(RunOf(op, Some(th.list), th.plan, Sent(ok)))])
  }

  predicate Release(s: State, s': State, t: nat)
    requires t < |s.threads|
  {
    && s.threads[t].Unlocking?
    && s' == s.(owner := None, threads := s.threads[t := Done(s.threads[t].run)],
                order := s.order + [t] + s.laterOrder, history := s.history + [s.threads[t].run] + s.later,
                laterOrder := [], later := [])
  }

  ghost predicate Step(cfg: Settings, ops: seq<Operation>, s: State, s': State) {
    |ops| == |s.threads| &&
    exists t: nat, ok: bool :: t < |s.threads| && StepOf(cfg, ops[t], s, s', t, ok)
  }

  ghost predicate StepOf(cfg: Settings, op: Operation, s: State, s': State, t: nat, ok: bool)
    requires t < |s.threads|
  {
    Allocates(cfg, op, s, s', t) || Acquire(op, s, s', t) || Search(cfg, op, s, s', t)
    || DetachNext(cfg, op, s, s', t, ok) || Conclude(cfg, op, s, s', t, ok) || Release(s, s', t)
  }

  // ---- the invariant ----

  /** The run answers its operation. */
  predicate Answers(op: Operation, run: Run) {
    match op
    case Fixed(svc, address) => run.FixedRun? && run.svc == svc && run.address == address
    case Delete(svc) => run.DeleteRun? && run.svc == svc
    case Auto(svc) => run.AutoRun? && run.svc == svc && !run.end.RolledBack?
  }

  /** The owner of the mutex has sent the beginning of a run that is valid from `start`. */
  ghost predicate Midway(cfg: Settings, op: Operation, start: Inventory, th: Thread, sent: seq<Attempt>) {
    match th
    case Waiting | Done(_) => false
    case Locked => !op.Auto? && sent == []
    case Found(own) => sent == [] && op.Fixed? && OwnResponse(cfg, op, start, Some(own))
    case Detaching(own, list, plan, fails) =>
      !op.Auto? && Ready(cfg, op, start, own, list, plan, fails) && sent == SentSoFar(cfg, op, list, plan, fails)
    case Unlocking(run) => !op.Auto? && Answers(op, run) && ValidRun(cfg, start, run) && sent == RunLog(cfg, start, run)
  }

  /** The responses are those of the inventory at the start. */
  ghost predicate HasRead(cfg: Settings, op: Operation, start: Inventory, own: Option<IPResponse>,
                          list: seq<IPResponse>) {
    (op.Fixed? ==> OwnResponse(cfg, op, start, own)) && IsListing(list, start, ToDetach(cfg, start, op))
  }

  ghost predicate Ready(cfg: Settings, op: Operation, start: Inventory, own: Option<IPResponse>,
                        list: seq<IPResponse>, plan: seq<nat>, fails: nat) {
    && HasRead(cfg, op, start, own, list)
    && |plan| <= |list| && Complete(plan, |plan|, cfg.attempts) && fails < cfg.attempts
  }

  function SentSoFar(cfg: Settings, op: Operation, list: seq<IPResponse>, plan: seq<nat>, fails: nat): seq<Attempt>
    requires Addressed(list) && |plan| <= |list|
  {
    DetachAllLog(list, Tag(cfg, op), plan, cfg.attempts)
    + if |plan| < |list| then FailedAttempts(list[|plan|], Tag(cfg, op), fails) else []
  }

  predicate OwnResponse(cfg: Settings, op: Operation, start: Inventory, own: Option<IPResponse>)
    requires op.Fixed?
  {
    InProject(cfg, start, op.address) && own == Some(Response(op.address, start[op.address]))
  }

  /** Each run is that of the thread beside it, and answers its operation. */
  ghost predicate Paired(ops: seq<Operation>, threads: seq<Thread>, order: seq<nat>, history: seq<Run>) {
    && |ops| == |threads| && |order| == |history|
    && forall i :: 0 <= i < |order| ==>
         order[i] < |threads| && threads[order[i]] == Done(history[i]) && Answers(ops[order[i]], history[i])
  }

  /** The finished runs are those of the finished threads, each once. */
  ghost predicate Recorded(ops: seq<Operation>, threads: seq<Thread>, order: seq<nat>, history: seq<Run>) {
    && Paired(ops, threads, order, history)
    && forall t: nat :: t < |threads| ==> multiset(order)[t] == if threads[t].Done? then 1 else 0
  }

  /** What acquisitions add to an inventory that has none of their addresses. */
  function Added(cfg: Settings, later: seq<Run>): Inventory {
    if later == [] then map[]
    else
      var added, last := Added(cfg, later[..|later| - 1]), later[|later| - 1];
      if last.AutoRun? && last.end.Acquired? then added[last.address := FreshRecord(cfg, last)] else added
  }

  /** Acquisitions of different addresses. */
  predicate Acquisitions(cfg: Settings, later: seq<Run>) {
    later == []
    || var front, last := later[..|later| - 1], later[|later| - 1];
       && Acquisitions(cfg, front) && last.AutoRun? && !last.end.RolledBack?
       && (last.end.Acquired? ==> last.address !in Added(cfg, front))
  }

  lemma AcquisitionsSnoc(cfg: Settings, later: seq<Run>, run: Run)
    requires Acquisitions(cfg, later) && run.AutoRun? && !run.end.RolledBack?
    requires run.end.Acquired? ==> run.address !in Added(cfg, later)
    ensures Acquisitions(cfg, later + [run])
    ensures Added(cfg, later + [run])
            == if run.end.Acquired? then Added(cfg, later)[run.address := FreshRecord(cfg, run)] else Added(cfg, later)
  {
    assert (later + [run])[..|later|] == later;
  }

  /** The owner's calls and the acquisitions meanwhile do not meet. */
  ghost predicate Beside(cfg: Settings, s: State) {
    && Acquisitions(cfg, s.later)
    && Added(cfg, s.later).Keys !! Replay(s.start, s.sent).Keys
    && s.inv == Replay(s.start, s.sent) + Added(cfg, s.later)
  }

  /** Mutual exclusion, and: the inventory is what the finished runs make of the first one, one
      after the other, with the calls of the mutex owner so far and the acquisitions beside them
      on top. */
  ghost predicate Invariant(cfg: Settings, ops: seq<Operation>, init: Inventory, s: State) {
    && Recorded(ops, s.threads, s.order + s.laterOrder, s.history + s.later)
    && |s.laterOrder| == |s.later|
    && (forall t :: 0 <= t < |s.threads| ==> (InCritical(s.threads[t]) <==> s.owner == Some(t)))
    && ValidRuns(cfg, init, s.history)
    && (!OwnerSends(s) ==> s.later == [])
    && match s.owner {
         case None => s.inv == AfterAll(cfg, init, s.history)
         case Some(t) =>
           && t < |s.threads|
           && s.start == AfterAll(cfg, init, s.history)
           && Beside(cfg, s)
           && Midway(cfg, ops[t], s.start, s.threads[t], s.sent)
       }
  }

  lemma PairedConcat(ops: seq<Operation>, threads: seq<Thread>, order: seq<nat>, history: seq<Run>,
                     more: seq<nat>, later: seq<Run>)
    requires |order| == |history|
    ensures Paired(ops, threads, order + more, history + later)
            <==> Paired(ops, threads, order, history) && Paired(ops, threads, more, later)
  {
    if Paired(ops, threads, order + more, history + later) {
      assert forall i :: 0 <= i < |order| ==> (order + more)[i] == order[i] && (history + later)[i] == history[i];
      assert forall i :: 0 <= i < |more| ==>
          more[i] == (order + more)[|order| + i] && later[i] == (history + later)[|order| + i];
    }
  }

  lemma StillPaired(ops: seq<Operation>, threads: seq<Thread>, order: seq<nat>, history: seq<Run>, t: nat, th: Thread)
    requires Paired(ops, threads, order, history) && t < |threads| && !threads[t].Done?
    ensures Paired(ops, threads[t := th], order, history)
  {
  }

  /** A thread that is not done moves on. */
  lemma StillRecorded(ops: seq<Operation>, threads: seq<Thread>, order: seq<nat>, history: seq<Run>, t: nat, th: Thread)
    requires Recorded(ops, threads, order, history) && t < |threads| && !threads[t].Done? && !th.Done?
    ensures Recorded(ops, threads[t := th], order, history)
  {
    StillPaired(ops, threads, order, history, t, th);
  }

  lemma NewlyRecorded(ops: seq<Operation>, threads: seq<Thread>, order: seq<nat>, history: seq<Run>,
                      more: seq<nat>, later: seq<Run>, t: nat, run: Run)
    requires Recorded(ops, threads, order + more, history + later) && |more| == |later|
    requires t < |threads| && !threads[t].Done? && Answers(ops[t], run)
    ensures Recorded(ops, threads[t := Done(run)], order + [t] + more, history + [run] + later)
  {
    var threads' := threads[t := Done(run)];
    StillPaired(ops, threads, order + more, history + later, t, Done(run));
    PairedConcat(ops, threads', order, history, more, later);
    PairedConcat(ops, threads', order, history, [t], [run]);
    PairedConcat(ops, threads', order + [t], history + [run], more, later);
    assert multiset(order + [t] + more) == multiset(order + more) + multiset{t};
  }

  /** A step of the owner inside its critical section leaves everything else alone. */
  lemma OwnerMoves(cfg: Settings, ops: seq<Operation>, init: Inventory, s: State, s': State, t: nat)
    requires Invariant(cfg, ops, init, s) && t < |s.threads| && InCritical(s.threads[t])
    requires |s'.threads| == |s.threads| && InCritical(s'.threads[t])
    requires Sending(s.threads[t]) ==> Sending(s'.threads[t])
    requires s' == s.(inv := s'.inv, sent := s'.sent, threads := s.threads[t := s'.threads[t]])
    requires Beside(cfg, s')
    requires Midway(cfg, ops[t], s.start, s'.threads[t], s'.sent)
    ensures Invariant(cfg, ops, init, s')
  {
    assert s.owner == Some(t);
    StillRecorded(ops, s.threads, s.order + s.laterOrder, s.history + s.later, t, s'.threads[t]);
    StillExclusive(s.threads, s.owner, t, s'.threads[t]);
  }

  lemma StillExclusive(threads: seq<Thread>, owner: Option<nat>, t: nat, th: Thread)
    requires forall u :: 0 <= u < |threads| ==> (InCritical(threads[u]) <==> owner == Some(u))
    requires t < |threads| && InCritical(threads[t]) && InCritical(th)
    ensures forall u :: 0 <= u < |threads| ==> (InCritical(threads[t := th][u]) <==> owner == Some(u))
  {
  }

  /** A call of the owner on an address that is there does not meet the acquisitions. */
  lemma CallBeside(cfg: Settings, s: State, s': State, call: Call, ok: bool)
    requires Beside(cfg, s) && !call.Allocate? && call.address in Replay(s.start, s.sent)
    requires s' == Call(s, call, ok).(threads := s'.threads)
    ensures Beside(cfg, s')
  {
    var m, added := Replay(s.start, s.sent), Added(cfg, s.later);
    ReplaySnoc(s.start, s.sent, Attempt(call, ok));
    if ok {
      assert Effect(m, call).Keys <= m.Keys;
      assert Effect(m + added, call) == Effect(m, call) + added;
    }
  }

  lemma SearchKeeps(cfg: Settings, ops: seq<Operation>, init: Inventory, s: State, s': State, t: nat)
    requires Invariant(cfg, ops, init, s) && t < |s.threads| && Search(cfg, ops[t], s, s', t)
    ensures Invariant(cfg, ops, init, s')
  {
    var th' := s'.threads[t];
    assert InCritical(s.threads[t]);
    assert s.sent == [] && s.later == [] && s.inv == s.start + map[] == s.start;
    if th'.Detaching? {
      assert DetachAllLog(th'.list, Tag(cfg, ops[t]), [], cfg.attempts) == [];
    }
    OwnerMoves(cfg, ops, init, s, s', t);
  }

  /** The calls sent, seen as the log of a run that ends here. */
  lemma EndOfRun(cfg: Settings, op: Operation, start: Inventory, list: seq<IPResponse>, plan: seq<nat>, use: Use)
    requires IsListing(list, start, ToDetach(cfg, start, op)) && |plan| <= |list| && !op.Auto?
    requires op.Fixed? ==> InProject(cfg, start, op.address)
    requires use.NotReached? ==>
               Broken(plan, |list|, cfg.attempts) || (op.Delete? && Complete(plan, |list|, cfg.attempts))
    requires !use.NotReached? ==> op.Fixed? && Complete(plan, |list|, cfg.attempts)
                                  && (use.Refused? <==> Reserved(start[op.address].tags, cfg.keys))
    ensures var run, log := RunOf(op, Some(list), plan, use), DetachAllLog(list, Tag(cfg, op), plan, cfg.attempts);
            && Answers(op, run) && ValidRun(cfg, start, run)
            && RunLog(cfg, start, run)
               == if use.Sent? then log + [Attempt(Update(op.address, start[op.address].tags + [Tag(cfg, op)]), use.ok)]
                  else log
  {
    var log := DetachAllLog(list, Tag(cfg, op), plan, cfg.attempts);
    assert log + [] == log;
    if op.Delete? {
      assert ToDetach(cfg, start, op) == Carriers(start, cfg, Tag(cfg, op));
    }
  }

  lemma OneMoreAttempt(cfg: Settings, op: Operation, list: seq<IPResponse>, plan: seq<nat>, fails: nat, ok: bool)
    requires Addressed(list) && |plan| < |list| && fails < cfg.attempts
    ensures SentSoFar(cfg, op, list, plan, fails) + [Attempt(DetachCall(list[|plan|], Tag(cfg, op), fails), ok)]
            == if ok then SentSoFar(cfg, op, list, plan + [fails], 0) else SentSoFar(cfg, op, list, plan, fails + 1)
  {
    if ok {
      var tag, ip, plan' := Tag(cfg, op), list[|plan|], plan + [fails];
      assert plan'[..|plan|] == plan;
      var log, failed := DetachAllLog(list, tag, plan, cfg.attempts), FailedAttempts(ip, tag, fails);
      ConcatAssociative(log, failed, [Attempt(DetachCall(ip, tag, fails), true)]);
      assert DetachAllLog(list, tag, plan', cfg.attempts) + [] == DetachAllLog(list, tag, plan', cfg.attempts);
    }
  }

  lemma AllFailed(cfg: Settings, op: Operation, list: seq<IPResponse>, plan: seq<nat>)
    requires Addressed(list) && |plan| < |list|
    ensures SentSoFar(cfg, op, list, plan, cfg.attempts)
            == DetachAllLog(list, Tag(cfg, op), plan + [cfg.attempts], cfg.attempts)
  {
    assert (plan + [cfg.attempts])[..|plan|] == plan;
    var failed := FailedAttempts(list[|plan|], Tag(cfg, op), cfg.attempts);
    assert failed + [] == failed;
  }

  lemma GivesUp(cfg: Settings, op: Operation, start: Inventory, list: seq<IPResponse>, plan: seq<nat>)
    requires IsListing(list, start, ToDetach(cfg, start, op)) && |plan| < |list| && !op.Auto?
    requires op.Fixed? ==> InProject(cfg, start, op.address)
    requires Complete(plan, |plan|, cfg.attempts)
    ensures var run := RunOf(op, Some(list), plan + [cfg.attempts], NotReached);
            Midway(cfg, op, start, Unlocking(run), SentSoFar(cfg, op, list, plan, cfg.attempts))
  {
    assert (plan + [cfg.attempts])[..|plan|] == plan;
    AllFailed(cfg, op, list, plan);
    EndOfRun(cfg, op, start, list, plan + [cfg.attempts], NotReached);
  }

  lemma StaysReady(cfg: Settings, op: Operation, start: Inventory, own: Option<IPResponse>,
                   list: seq<IPResponse>, plan: seq<nat>, fails: nat)
    requires Ready(cfg, op, start, own, list, plan, fails) && |plan| < |list|
    ensures Ready(cfg, op, start, own, list, plan + [fails], 0)
    ensures fails + 1 < cfg.attempts ==> Ready(cfg, op, start, own, list, plan, fails + 1)
  {
  }

  lemma ReadyIsMidway(cfg: Settings, op: Operation, start: Inventory, own: Option<IPResponse>,
                      list: seq<IPResponse>, plan: seq<nat>, fails: nat)
    requires !op.Auto? && Ready(cfg, op, start, own, list, plan, fails)
    ensures Midway(cfg, op, start, Detaching(own, list, plan, fails), SentSoFar(cfg, op, list, plan, fails))
  {
  }

  lemma SucceedsMidway(cfg: Settings, op: Operation, start: Inventory, th: Thread, th': Thread, sent: seq<Attempt>)
    requires th.Detaching? && !op.Auto? && Ready(cfg, op, start, th.own, th.list, th.plan, th.fails)
    requires |th.plan| < |th.list| && th' == AfterAttempt(cfg, op, th, true)
    requires sent == SentSoFar(cfg, op, th.list, th.plan + [th.fails], 0)
    ensures Midway(cfg, op, start, th', sent)
  {
    StaysReady(cfg, op, start, th.own, th.list, th.plan, th.fails);
    ReadyIsMidway(cfg, op, start, th.own, th.list, th.plan + [th.fails], 0);
  }

  lemma TriesAgainMidway(cfg: Settings, op: Operation, start: Inventory, th: Thread, th': Thread, sent: seq<Attempt>)
    requires th.Detaching? && !op.Auto? && Ready(cfg, op, start, th.own, th.list, th.plan, th.fails)
    requires |th.plan| < |th.list| && th.fails + 1 < cfg.attempts && th' == th.(fails := th.fails + 1)
    requires sent == SentSoFar(cfg, op, th.list, th.plan, th.fails + 1)
    ensures Midway(cfg, op, start, th', sent)
  {
    StaysReady(cfg, op, start, th.own, th.list, th.plan, th.fails);
    ReadyIsMidway(cfg, op, start, th.own, th.list, th.plan, th.fails + 1);
  }

  lemma GivesUpMidway(cfg: Settings, op: Operation, start: Inventory, th: Thread, th': Thread, sent: seq<Attempt>)
    requires th.Detaching? && !op.Auto? && Ready(cfg, op, start, th.own, th.list, th.plan, th.fails)
    requires |th.plan| < |th.list| && th.fails + 1 >= cfg.attempts && th' == AfterAttempt(cfg, op, th, false)
    requires sent == SentSoFar(cfg, op, th.list, th.plan, th.fails + 1)
    ensures Midway(cfg, op, start, th', sent)
  {
    GivesUp(cfg, op, start, th.list, th.plan);
  }

  lemma DetachMidway(cfg: Settings, op: Operation, start: Inventory, th: Thread, ok: bool, th': Thread,
                     sent: seq<Attempt>)
    requires th.Detaching? && !op.Auto? && Ready(cfg, op, start, th.own, th.list, th.plan, th.fails)
    requires |th.plan| < |th.list| && th' == AfterAttempt(cfg, op, th, ok)
    requires sent == if ok then SentSoFar(cfg, op, th.list, th.plan + [th.fails], 0)
                     else SentSoFar(cfg, op, th.list, th.plan, th.fails + 1)
    ensures Midway(cfg, op, start, th', sent)
  {
    if ok {
      SucceedsMidway(cfg, op, start, th, th', sent);
    } else if th.fails + 1 < cfg.attempts {
      TriesAgainMidway(cfg, op, start, th, th', sent);
    } else {
      GivesUpMidway(cfg, op, start, th, th', sent);
    }
  }

  /** What the owner has still to send is on addresses that its own calls have left alone. */
  lemma RemainingAreThere(cfg: Settings, op: Operation, start: Inventory, th: Thread, sent: seq<Attempt>)
    requires Midway(cfg, op, start, th, sent) && th.Detaching?
    ensures forall i :: |th.plan| <= i < |th.list| ==>
              th.list[i].ipaddress.Some?
              && Lookup(Replay(start, sent), th.list[i].ipaddress.value)
                 == Lookup(start, th.list[i].ipaddress.value) != None
    ensures op.Fixed? ==> Lookup(Replay(start, sent), op.address) == Lookup(start, op.address) != None
  {
    var tag, now := Tag(cfg, op), Replay(start, sent);
    var log := DetachAllLog(th.list, tag, th.plan, cfg.attempts);
    DetachAllEffect(start, ToDetach(cfg, start, op), th.list, tag, th.plan, cfg.attempts);
    if |th.plan| < |th.list| {
      var failed := FailedAttempts(th.list[|th.plan|], tag, th.fails);
      ReplayConcat(start, log, failed);
      FailuresHaveNoEffect(Replay(start, log), th.list[|th.plan|], tag, th.fails);
    } else {
      assert log + [] == log;
    }
    assert now == Replay(start, log);
    forall i | |th.plan| <= i < |th.list|
      ensures th.list[i].ipaddress.Some?
      ensures Lookup(now, th.list[i].ipaddress.value) == Lookup(start, th.list[i].ipaddress.value) != None
    {
      assert forall j :: 0 <= j < |th.plan| ==> th.list[j].ipaddress != th.list[i].ipaddress;
    }
  }

  lemma DetachKeeps(cfg: Settings, ops: seq<Operation>, init: Inventory, s: State, s': State, t: nat, ok: bool)
    requires Invariant(cfg, ops, init, s) && t < |s.threads| && DetachNext(cfg, ops[t], s, s', t, ok)
    ensures Invariant(cfg, ops, init, s')
  {
    var th := s.threads[t];
    assert InCritical(th);
    RemainingAreThere(cfg, ops[t], s.start, th, s.sent);
    CallBeside(cfg, s, s', DetachCall(th.list[|th.plan|], Tag(cfg, ops[t]), th.fails), ok);
    OneMoreAttempt(cfg, ops[t], th.list, th.plan, th.fails, ok);
    DetachMidway(cfg, ops[t], s.start, th, ok, s'.threads[t], s'.sent);
    OwnerMoves(cfg, ops, init, s, s', t);
  }

  lemma ConcludeKeeps(cfg: Settings, ops: seq<Operation>, init: Inventory, s: State, s': State, t: nat, ok: bool)
    requires Invariant(cfg, ops, init, s) && t < |s.threads| && Conclude(cfg, ops[t], s, s', t, ok)
    ensures Invariant(cfg, ops, init, s')
  {
    var op, th := ops[t], s.threads[t];
    assert InCritical(th);
    var log := DetachAllLog(th.list, Tag(cfg, op), th.plan, cfg.attempts);
    assert log + [] == log;
    var use := if op.Delete? then NotReached else if Reserved(th.own.value.tags, cfg.keys) then Refused else Sent(ok);
    EndOfRun(cfg, op, s.start, th.list, th.plan, use);
    if use.Sent? {
      RemainingAreThere(cfg, op, s.start, th, s.sent);
      CallBeside(cfg, s, s', Update(op.address, th.own.value.tags + [Tag(cfg, op)]), ok);
    }
    OwnerMoves(cfg, ops, init, s, s', t);
  }

  lemma AcquireKeeps(cfg: Settings, ops: seq<Operation>, init: Inventory, s: State, s': State, t: nat)
    requires Invariant(cfg, ops, init, s) && t < |s.threads| && Acquire(ops[t], s, s', t)
    ensures Invariant(cfg, ops, init, s')
  {
    StillRecorded(ops, s.threads, s.order + s.laterOrder, s.history + s.later, t, Locked);
    assert s.start + map[] == s.start;
    forall u | 0 <= u < |s'.threads| && u != t ensures s'.threads[u] == s.threads[u] {
    }
  }

  lemma ReleaseKeeps(cfg: Settings, ops: seq<Operation>, init: Inventory, s: State, s': State, t: nat)
    requires Invariant(cfg, ops, init, s) && t < |s.threads| && Release(s, s', t)
    ensures Invariant(cfg, ops, init, s')
  {
    var run := s.threads[t].run;
    assert InCritical(s.threads[t]);
    assert Midway(cfg, ops[t], s.start, s.threads[t], s.sent);
    NewlyRecorded(ops, s.threads, s.order, s.history, s.laterOrder, s.later, t, run);
    assert s'.order + [] == s'.order && s'.history + [] == s'.history;
    HistorySnoc(cfg, init, s.history, run);
    HistoryThenLater(cfg, init, s.history + [run], s.later);
    forall u | 0 <= u < |s'.threads| ensures !InCritical(s'.threads[u]) {
      assert u != t ==> s'.threads[u] == s.threads[u];
    }
  }

  lemma RunsAcquisition(cfg: Settings, inv: Inventory, run: Run)
    requires run.AutoRun? && !run.end.RolledBack? && (run.end.Acquired? ==> run.address !in inv)
    ensures ValidRun(cfg, inv, run)
    ensures After(cfg, inv, run)
            == if run.end.Acquired? then inv[run.address := FreshRecord(cfg, run)] else inv
  {
    AcquisitionEffect(inv, run.address, FreshRecord(cfg, run), run.end);
  }

  lemma LaterKeys(cfg: Settings, front: seq<Run>, last: Run)
    requires Acquisitions(cfg, front + [last])
    ensures Acquisitions(cfg, front) && last.AutoRun? && !last.end.RolledBack?
    ensures last.end.Acquired? ==> last.address !in Added(cfg, front)
    ensures Added(cfg, front + [last])
            == if last.end.Acquired? then Added(cfg, front)[last.address := FreshRecord(cfg, last)]
               else Added(cfg, front)
  {
    assert (front + [last])[..|front|] == front;
  }

  lemma OneLater(cfg: Settings, init: Inventory, history: seq<Run>, front: seq<Run>, last: Run)
    requires ValidRuns(cfg, init, history) && ValidRuns(cfg, init, history + front)
    requires AfterAll(cfg, init, history + front) == AfterAll(cfg, init, history) + Added(cfg, front)
    requires Acquisitions(cfg, front + [last])
    requires Added(cfg, front + [last]).Keys !! AfterAll(cfg, init, history).Keys
    ensures ValidRuns(cfg, init, history + (front + [last]))
    ensures AfterAll(cfg, init, history + (front + [last]))
            == AfterAll(cfg, init, history) + Added(cfg, front + [last])
  {
    LaterKeys(cfg, front, last);
    RunsLast(cfg, init, history + front, AfterAll(cfg, init, history), Added(cfg, front), last);
    Associative(history, front, last);
  }

  lemma NoneLater(cfg: Settings, init: Inventory, history: seq<Run>)
    requires ValidRuns(cfg, init, history)
    ensures ValidRuns(cfg, init, history + [])
    ensures AfterAll(cfg, init, history + []) == AfterAll(cfg, init, history) + map[]
  {
    assert history + [] == history;
    assert AfterAll(cfg, init, history) + map[] == AfterAll(cfg, init, history);
  }

  lemma Associative<T>(a: seq<T>, b: seq<T>, x: T)
    ensures a + (b + [x]) == a + b + [x]
  {
  }

  lemma RunsLast(cfg: Settings, init: Inventory, history: seq<Run>, before: Inventory, added: Inventory, run: Run)
    requires ValidRuns(cfg, init, history) && AfterAll(cfg, init, history) == before + added
    requires run.AutoRun? && !run.end.RolledBack?
    requires run.end.Acquired? ==> run.address !in before && run.address !in added
    ensures ValidRuns(cfg, init, history + [run])
    ensures AfterAll(cfg, init, history + [run])
            == before + if run.end.Acquired? then added[run.address := FreshRecord(cfg, run)] else added
  {
    RunsAcquisition(cfg, before + added, run);
    HistorySnoc(cfg, init, history, run);
    if run.end.Acquired? {
      UpdateOfUnion(before, added, run.address, FreshRecord(cfg, run));
    }
  }

  lemma UpdateOfUnion<K, V>(before: map<K, V>, added: map<K, V>, k: K, v: V)
    ensures (before + added)[k := v] == before + added[k := v]
  {
  }

  /** Acquisitions of addresses that are not there can as well come last. */
  lemma {:induction false} HistoryThenLater(cfg: Settings, init: Inventory, history: seq<Run>, later: seq<Run>)
    requires ValidRuns(cfg, init, history) && Acquisitions(cfg, later)
    requires Added(cfg, later).Keys !! AfterAll(cfg, init, history).Keys
    ensures ValidRuns(cfg, init, history + later)
    ensures AfterAll(cfg, init, history + later) == AfterAll(cfg, init, history) + Added(cfg, later)
  {
    if later == [] {
      NoneLater(cfg, init, history);
    } else {
      var front, last := later[..|later| - 1], later[|later| - 1];
      assert later == front + [last];
      LaterKeys(cfg, front, last);
      HistoryThenLater(cfg, init, history, front);
      OneLater(cfg, init, history, front, last);
    }
  }

  lemma AllocatesKeeps(cfg: Settings, ops: seq<Operation>, init: Inventory, s: State, s': State, t: nat)
    requires Invariant(cfg, ops, init, s) && t < |s.threads| && Allocates(cfg, ops[t], s, s', t)
    ensures Invariant(cfg, ops, init, s')
  {
    var run := s'.threads[t].run;
    AllocatesRecorded(cfg, ops, s, s', t);
    AllocatesExclusive(cfg, ops[t], s, s', t);
    if OwnerSends(s) {
      AllocatesBeside(cfg, s, s', run);
    } else {
      AllocatesAlone(cfg, ops, init, s, s', t);
    }
  }

  lemma AllocatesExclusive(cfg: Settings, op: Operation, s: State, s': State, t: nat)
    requires forall u :: 0 <= u < |s.threads| ==> (InCritical(s.threads[u]) <==> s.owner == Some(u))
    requires t < |s.threads| && Allocates(cfg, op, s, s', t)
    ensures s'.owner == s.owner && |s'.threads| == |s.threads|
    ensures forall u :: 0 <= u < |s.threads| ==> (InCritical(s'.threads[u]) <==> s.owner == Some(u))
    ensures s.owner.Some? && s.owner.value < |s.threads| ==> s'.threads[s.owner.value] == s.threads[s.owner.value]
    ensures OwnerSends(s') == OwnerSends(s)
  {
    assert s.owner != Some(t);
    forall u | 0 <= u < |s'.threads| && u != t ensures s'.threads[u] == s.threads[u] {
    }
  }

  lemma AllocatesRecorded(cfg: Settings, ops: seq<Operation>, s: State, s': State, t: nat)
    requires Recorded(ops, s.threads, s.order + s.laterOrder, s.history + s.later) && |s.laterOrder| == |s.later|
    requires t < |s.threads| && Allocates(cfg, ops[t], s, s', t) && (!OwnerSends(s) ==> s.later == [])
    ensures Recorded(ops, s'.threads, s'.order + s'.laterOrder, s'.history + s'.later) && |s'.laterOrder| == |s'.later|
  {
    var run := s'.threads[t].run;
    Appended(s.order, s.laterOrder, t);
    Appended(s.history, s.later, run);
    NewlyRecorded(ops, s.threads, s.order + s.laterOrder, s.history + s.later, [], [], t, run);
  }

  lemma Appended<T>(a: seq<T>, b: seq<T>, x: T)
    ensures a + b + [x] + [] == a + (b + [x])
    ensures b == [] ==> a + b + [x] + [] == a + [x] + b
    ensures a + b + [] == a + b
  {
  }

  lemma AllocatesAlone(cfg: Settings, ops: seq<Operation>, init: Inventory, s: State, s': State, t: nat)
    requires Invariant(cfg, ops, init, s) && t < |s.threads| && Allocates(cfg, ops[t], s, s', t) && !OwnerSends(s)
    ensures ValidRuns(cfg, init, s'.history) && s'.inv == AfterAll(cfg, init, s'.history) == s'.start
    ensures s.owner.Some? ==>
              Beside(cfg, s') && Midway(cfg, ops[s.owner.value], s'.start, s.threads[s.owner.value], s'.sent)
  {
    var run := s'.threads[t].run;
    if s.owner.Some? {
      assert s.sent == [] && s.start + map[] == s.start;
      assert s'.start + map[] == s'.start;
    }
    RunsAcquisition(cfg, s.inv, run);
    HistorySnoc(cfg, init, s.history, run);
  }

  lemma AllocatesBeside(cfg: Settings, s: State, s': State, run: Run)
    requires Beside(cfg, s) && run.AutoRun? && !run.end.RolledBack?
    requires run.end.Acquired? ==> run.address !in s.inv
    requires s'.inv == if run.end.Acquired? then s.inv[run.address := FreshRecord(cfg, run)] else s.inv
    requires s'.start == s.start && s'.sent == s.sent && s'.later == s.later + [run]
    ensures Beside(cfg, s')
  {
    AcquisitionsSnoc(cfg, s.later, run);
  }

  lemma HistorySnoc(cfg: Settings, init: Inventory, history: seq<Run>, run: Run)
    requires ValidRuns(cfg, init, history) && ValidRun(cfg, AfterAll(cfg, init, history), run)
    ensures ValidRuns(cfg, init, history + [run])
    ensures AfterAll(cfg, init, history + [run]) == After(cfg, AfterAll(cfg, init, history), run)
  {
    assert (history + [run])[..|history|] == history;
  }

  lemma StepKeepsInvariant(cfg: Settings, ops: seq<Operation>, init: Inventory, s: State, s': State)
    requires Invariant(cfg, ops, init, s) && Step(cfg, ops, s, s')
    ensures Invariant(cfg, ops, init, s')
  {
    var t: nat, ok: bool :| t < |s.threads| && StepOf(cfg, ops[t], s, s', t, ok);
    if Allocates(cfg, ops[t], s, s', t) {
      AllocatesKeeps(cfg, ops, init, s, s', t);
    } else if Acquire(ops[t], s, s', t) {
      AcquireKeeps(cfg, ops, init, s, s', t);
    } else if Search(cfg, ops[t], s, s', t) {
      SearchKeeps(cfg, ops, init, s, s', t);
    } else if DetachNext(cfg, ops[t], s, s', t, ok) {
      DetachKeeps(cfg, ops, init, s, s', t, ok);
    } else if Conclude(cfg, ops[t], s, s', t, ok) {
      ConcludeKeeps(cfg, ops, init, s, s', t, ok);
    } else {
      ReleaseKeeps(cfg, ops, init, s, s', t);
    }
  }

  /** A schedule: any interleaving of the threads' steps. */
  ghost predicate Schedule(cfg: Settings, ops: seq<Operation>, init: Inventory, states: seq<State>) {
    && states != [] && Init(states[0], init) && |states[0].threads| == |ops|
    && forall i :: 0 <= i < |states| - 1 ==> Step(cfg, ops, states[i], states[i + 1])
  }

  lemma {:induction false} InvariantHolds(cfg: Settings, ops: seq<Operation>, init: Inventory, states: seq<State>,
                                          n: nat)
    requires Schedule(cfg, ops, init, states) && n < |states|
    ensures Invariant(cfg, ops, init, states[n])
  {
    if n > 0 {
      InvariantHolds(cfg, ops, init, states, n - 1);
      assert Step(cfg, ops, states[n - 1], states[n - 1 + 1]);
      StepKeepsInvariant(cfg, ops, init, states[n - 1], states[n]);
    }
  }

  // ---- what the mutex gives ----

  /** No lost update: in every state of every schedule in which the mutex is free, the inventory
      is the one of running the finished operations one after another, in lock order, with the
      acquisitions among them. */
  lemma Serializable(cfg: Settings, ops: seq<Operation>, init: Inventory, states: seq<State>, n: nat)
    requires Schedule(cfg, ops, init, states) && n < |states|
    ensures var s := states[n];
            && ValidRuns(cfg, init, s.history)
            && (s.owner.None? ==>
                  Recorded(ops, s.threads, s.order, s.history) && s.inv == AfterAll(cfg, init, s.history))
  {
    InvariantHolds(cfg, ops, init, states, n);
    var s := states[n];
    if s.owner.None? {
      assert s.order + s.laterOrder == s.order && s.history + s.later == s.history;
    }
  }

  /** Without the mutex the update of a shared address is lost: two runs that are valid for the
      same inventory, sent one after the other, leave the second service's tag alone. */
  lemma LostWithoutMutex(cfg: Settings, inv: Inventory, svc: ServiceName, svc': ServiceName, address: string)
    requires InProject(cfg, inv, address) && !Reserved(inv[address].tags, cfg.keys)
    requires ServiceTag(cfg, svc) != ServiceTag(cfg, svc')
    requires Carriers(inv, cfg, ServiceTag(cfg, svc)) == {} && Carriers(inv, cfg, ServiceTag(cfg, svc')) == {}
    ensures var run := FixedRun(svc, address, Some([]), [], Sent(true));
            var run' := FixedRun(svc', address, Some([]), [], Sent(true));
            && ValidRun(cfg, inv, run) && ValidRun(cfg, inv, run') && Succeeded(cfg, run) && Succeeded(cfg, run')
            && Carriers(Replay(inv, RunLog(cfg, inv, run) + RunLog(cfg, inv, run')), cfg, ServiceTag(cfg, svc)) == {}
  {
    var tag, tag', tags := ServiceTag(cfg, svc), ServiceTag(cfg, svc'), inv[address].tags;
    var first, second := Attempt(Update(address, tags + [tag]), true), Attempt(Update(address, tags + [tag']), true);
    ReplaySnoc(inv, [], first);
    ReplaySnoc(inv, [first], second);
    assert [] + [first] == [first] && [] + [second] == [second];
    assert address !in Carriers(inv, cfg, tag);
    var after := Replay(inv, [first] + [second]);
    forall a | a in after ensures a !in Carriers(after, cfg, tag) {
      assert a !in Carriers(inv, cfg, tag);
    }
  }

  /** No stale write: whatever a thread has still to send, it computes from tags that are the
      current ones. */
  lemma SnapshotsAreCurrent(cfg: Settings, ops: seq<Operation>, init: Inventory, states: seq<State>, n: nat, t: nat)
    requires Schedule(cfg, ops, init, states) && n < |states| && t < |states[n].threads| && t < |ops|
    requires states[n].threads[t].Detaching?
    ensures var s, th := states[n], states[n].threads[t];
            && (forall i :: |th.plan| <= i < |th.list| ==>
                  && th.list[i].ipaddress.Some? && th.list[i].ipaddress.value in s.inv
                  && th.list[i] == Response(th.list[i].ipaddress.value, s.inv[th.list[i].ipaddress.value]))
            && (ops[t].Fixed? ==> ops[t].address in s.inv
                                  && th.own == Some(Response(ops[t].address, s.inv[ops[t].address])))
  {
    InvariantHolds(cfg, ops, init, states, n);
    var s, th := states[n], states[n].threads[t];
    assert InCritical(th);
    RemainingAreThere(cfg, ops[t], s.start, th, s.sent);
    forall a | a in Replay(s.start, s.sent) ensures Lookup(s.inv, a) == Lookup(Replay(s.start, s.sent), a) {
    }
  }

  /** Reference counting survives concurrency: after any interleaving of acquiring, attaching,
      switching and deleting in which no call failed, with the mutex free, acquired addresses are
      there exactly while some service holds them. */
  lemma CountedConcurrently(cfg: Settings, ops: seq<Operation>, init: Inventory, refs: References,
                            states: seq<State>, n: nat)
    requires Schedule(cfg, ops, init, states) && n < |states| && states[n].owner.None?
    requires Counted(cfg, init, refs)
    requires forall t :: 0 <= t < |ops| ==> Slashless(cfg, ops[t].svc)
    requires FailureFreeRuns(cfg, init, states[n].history)
    ensures Counted(cfg, states[n].inv, ReferencesAfterAll(refs, states[n].history))
  {
    Serializable(cfg, ops, init, states, n);
    var s := states[n];
    forall i | 0 <= i < |s.history| ensures Slashless(cfg, s.history[i].svc) {
      assert Answers(ops[s.order[i]], s.history[i]);
    }
    CountedOverRuns(cfg, init, refs, s.history);
  }
}
