/** The three mutexes of the controller (loadbalancer.go): any number of threads that ensure,
    delete and write configurations, at the granularity of single calls. A thread goes through
    its operation as the code does, with every early return; what its inventory calls ask for
    is arbitrary here, so every behaviour of the operations is included. */
module Mutexes {
  import opened Wrappers
  import opened Metal

  datatype Kind = AutoEnsure | FixedEnsure | Delete | UpdateConfig

  datatype Mutex = IPUpdate | IPAllocate | ConfigWrite

  /** How often a detach and a service update are tried, and how many nodes there are. */
  datatype Limits = Limits(attempts: nat, steps: nat, nodes: nat)

  /** Where a thread stands. `left` counts the attempts that are left; `since` is the inventory
      version at which the configuration mutex was taken and `snapshot` the one read under it;
      `passes` and `items` are the lists of objects still to go through, and what is left of
      the current one. */
  datatype Thread =
    | Start(kind: Kind)
    // holding ipUpdateMutex
    | Locked(kind: Kind)
    | Found
    | Detaching(kind: Kind, todo: nat, left: nat)
    | Releasing
    // holding ipAllocateMutex
    | Allocating
    | Publishing(left: nat)
    | AwaitingConfig
    | Clearing
    | Freeing
    | Returning
    // holding configWriteMutex, and ipAllocateMutex if allocating
    | Configuring(allocating: bool, since: nat)
    | Writing(allocating: bool, since: nat, snapshot: nat, passes: nat, items: nat)
    | Leaving(allocating: bool, ok: bool)
    | Finished

  /** A write to the cluster's custom resources, computed from an inventory version. */
  datatype Write = Write(thread: nat, since: nat, snapshot: nat)

  /** `versions` are the inventories so far, one per call, the last one being current; `objects`
      counts the custom resources. The sets record which threads have acquired an address, have
      written a configuration to its end, and have sent the first call of a rollback. */
  datatype State = State(threads: seq<Thread>, owner: map<Mutex, nat>, versions: seq<Inventory>,
                         objects: nat, writes: seq<Write>,
                         acquired: set<nat>, configured: set<nat>, rolledBack: set<nat>)

  function Holds(th: Thread): set<Mutex> {
    match th
    case Start(_) | Finished => {}
    case Locked(_) | Found | Detaching(_, _, _) | Releasing => {IPUpdate}
    case Allocating | Publishing(_) | AwaitingConfig | Clearing | Freeing | Returning => {IPAllocate}
    case Configuring(allocating, _) => WithConfig(allocating)
    case Writing(allocating, _, _, _, _) => WithConfig(allocating)
    case Leaving(allocating, _) => WithConfig(allocating)
  }

  function WithConfig(allocating: bool): set<Mutex> {
    if allocating then {IPAllocate, ConfigWrite} else {ConfigWrite}
  }

  predicate Init(s: State) {
    && s.owner == map[] && |s.versions| == 1 && s.writes == []
    && s.acquired == {} && s.configured == {} && s.rolledBack == {}
    && forall t :: 0 <= t < |s.threads| ==> s.threads[t].Start?
  }

  // ---- taking and giving back a mutex ----

  /** The mutex whose Lock the thread has called: until it is free the thread can do nothing. */
  function WaitsFor(th: Thread): Option<Mutex> {
    match th
    case Start(FixedEnsure) | Start(Delete) => Some(IPUpdate)
    case Start(AutoEnsure) => Some(IPAllocate)
    case Start(UpdateConfig) | AwaitingConfig => Some(ConfigWrite)
    case _ => None
  }

  function AfterLock(th: Thread, now: nat): Thread
    requires WaitsFor(th).Some?
  {
    match th
    case Start(FixedEnsure) | Start(Delete) => Locked(th.kind)
    case Start(AutoEnsure) => Allocating
    case Start(UpdateConfig) | AwaitingConfig => Configuring(th.AwaitingConfig?, now)
  }

  /** The mutex that the thread gives back next. */
  function Leaves(th: Thread): Option<Mutex> {
    match th
    case Releasing => Some(IPUpdate)
    case Returning => Some(IPAllocate)
    case Leaving(_, _) => Some(ConfigWrite)
    case _ => None
  }

  /** A failed configuration makes the holder of the allocate mutex roll back. */
  function AfterUnlock(th: Thread): Thread
    requires Leaves(th).Some?
  {
    if th.Leaving? && th.allocating then (if th.ok then Returning else Clearing) else Finished
  }

  function Become(s: State, t: nat, th: Thread): State
    requires t < |s.threads|
  {
    s.(threads := s.threads[t := th])
  }

  predicate Lock(s: State, s': State, t: nat)
    requires t < |s.threads| && |s.versions| > 0
  {
    var th := s.threads[t];
    && WaitsFor(th).Some? && WaitsFor(th).value !in s.owner
    && s' == Become(s, t, AfterLock(th, |s.versions| - 1)).(owner := s.owner[WaitsFor(th).value := t])
  }

  predicate Unlock(s: State, s': State, t: nat)
    requires t < |s.threads|
  {
    var th := s.threads[t];
    Leaves(th).Some? && s' == Become(s, t, AfterUnlock(th)).(owner := s.owner - {Leaves(th).value})
  }

  // ---- what a thread does in between ----

  /** Searches, attempts to update the service, lists of objects, objects left as they are, and
      returns without a call; all but the last may fail. */
  predicate Internal(lim: Limits, s: State, th: Thread, th': Thread)
    requires |s.versions| > 0
  {
    var now := |s.versions| - 1;
    match th
    case Locked(kind) =>
      th' == Releasing || (if kind.FixedEnsure? then th' == Found else ListRead(lim, s, th', Delete))
    case Found =>
      th' == Releasing || ListRead(lim, s, th', FixedEnsure)
    case Detaching(_, todo, _) =>
      todo == 0 && th' == Releasing
    case Allocating =>
      th' == Returning
    case Publishing(left) =>
      th' == AwaitingConfig || th' == Clearing || (left > 1 && th' == Publishing(left - 1))
    case Configuring(allocating, since) =>
      || th' == Leaving(allocating, false)
      || (th'.Writing? && th' == Writing(allocating, since, now, th'.passes, 0)
          && th'.passes <= 3 + |s.versions[now]|)
    case Writing(allocating, since, snapshot, passes, items) =>
      if items > 0 then th' == th.(items := items - 1)
      else if passes == 0 then th' == Leaving(allocating, true)
      else
        || th' == Leaving(allocating, false)
        || (th'.Writing? && th' == th.(passes := passes - 1, items := th'.items)
            && snapshot <= now && th'.items <= s.objects + lim.nodes + |s.versions[snapshot]|)
    case _ => false
  }

  /** The search for the addresses to detach lists some of the current inventory. */
  predicate ListRead(lim: Limits, s: State, th': Thread, kind: Kind)
    requires |s.versions| > 0
  {
    th'.Detaching? && th' == Detaching(kind, th'.todo, lim.attempts) && th'.todo <= |s.versions[|s.versions| - 1]|
  }

  /** Where a call on the inventory leads. */
  function AfterCall(lim: Limits, th: Thread, ok: bool): Option<Thread> {
    match th
    case Detaching(kind, todo, left) =>
      if todo == 0 then (if kind.FixedEnsure? then Some(Releasing) else None)
      else if ok then Some(Detaching(kind, todo - 1, lim.attempts))
      else if left > 1 then Some(Detaching(kind, todo, left - 1))
      else Some(Releasing)
    case Allocating => Some(if ok then Publishing(lim.steps) else Returning)
    case Clearing => Some(if ok then Freeing else Returning)
    case Freeing => Some(Returning)
    case _ => None
  }

  predicate InventoryCall(lim: Limits, s: State, s': State, t: nat, attempt: Attempt)
    requires t < |s.threads| && |s.versions| > 0
  {
    var th, next := s.threads[t], AfterCall(lim, s.threads[t], attempt.ok);
    && next.Some?
    && s' == Become(s, t, next.value)
             .(versions := s.versions + [Replay(s.versions[|s.versions| - 1], [attempt])],
               acquired := s.acquired + (if th.Allocating? && attempt.ok then {t} else {}),
               rolledBack := s.rolledBack + (if th.Clearing? then {t} else {}))
  }

  /** One object is deleted, created or updated, or that fails. */
  predicate WriteObject(s: State, s': State, t: nat, ok: bool)
    requires t < |s.threads|
  {
    var th := s.threads[t];
    && th.Writing? && th.items > 0
    && if ok then
         && s'.objects <= s.objects + 1
         && s' == Become(s, t, th.(items := th.items - 1))
                  .(objects := s'.objects, writes := s.writes + [Write(t, th.since, th.snapshot)])
       else
         s' == Become(s, t, Leaving(th.allocating, false))
  }

  predicate Move(lim: Limits, s: State, s': State, t: nat)
    requires t < |s.threads| && |s.versions| > 0
  {
    && |s'.threads| == |s.threads| && Internal(lim, s, s.threads[t], s'.threads[t])
    && s' == Become(s, t, s'.threads[t])
             .(configured := s.configured
                             + (if s.threads[t].Writing? && s'.threads[t] == Leaving(s.threads[t].allocating, true)
                                then {t} else {}))
  }

  predicate StepOf(lim: Limits, s: State, s': State, t: nat, attempt: Attempt)
    requires t < |s.threads| && |s.versions| > 0
  {
    Lock(s, s', t) || Unlock(s, s', t) || Move(lim, s, s', t) || InventoryCall(lim, s, s', t, attempt)
    || WriteObject(s, s', t, attempt.ok)
  }

  ghost predicate Step(lim: Limits, s: State, s': State) {
    |s.versions| > 0 && exists t: nat, attempt :: t < |s.threads| && StepOf(lim, s, s', t, attempt)
  }

  ghost predicate Schedule(lim: Limits, states: seq<State>) {
    && states != [] && Init(states[0])
    && forall i :: 0 <= i < |states| - 1 ==> Step(lim, states[i], states[i + 1])
  }

  // ---- the invariant ----

  function OwnedBy(owner: map<Mutex, nat>, t: nat): set<Mutex> {
    set m | m in owner && owner[m] == t
  }

  ghost predicate Invariant(s: State) {
    && |s.versions| > 0
    && (forall t :: 0 <= t < |s.threads| ==> Holds(s.threads[t]) == OwnedBy(s.owner, t))
    && (forall m :: m in s.owner ==> s.owner[m] < |s.threads|)
    && (forall t :: 0 <= t < |s.threads| ==> SnapshotInRange(s, s.threads[t]))
    && (forall i :: 0 <= i < |s.writes| ==> s.writes[i].since <= s.writes[i].snapshot < |s.versions|)
    && (forall i, j :: 0 <= i < j < |s.writes| ==> s.writes[i].snapshot <= s.writes[j].snapshot)
  }

  /** A snapshot is at least as new as the mutex, which is at least as new as all writes so far. */
  predicate SnapshotInRange(s: State, th: Thread) {
    && (th.Configuring? ==> th.since < |s.versions|)
    && (th.Writing? ==>
          && th.since <= th.snapshot < |s.versions|
          && forall i :: 0 <= i < |s.writes| ==> s.writes[i].snapshot <= th.snapshot)
  }

  lemma StepKeepsInvariant(lim: Limits, s: State, s': State)
    requires Invariant(s) && Step(lim, s, s')
    ensures Invariant(s')
  {
    var t: nat, attempt :| t < |s.threads| && StepOf(lim, s, s', t, attempt);
    if Lock(s, s', t) {
      LockKeepsInvariant(s, s', t);
    } else if Unlock(s, s', t) {
      UnlockKeepsInvariant(s, s', t);
    } else if WriteObject(s, s', t, attempt.ok) {
      WriteKeepsInvariant(s, s', t, attempt.ok);
    } else if Move(lim, s, s', t) {
      MoveKeepsInvariant(lim, s, s', t);
    } else {
      CallKeepsInvariant(lim, s, s', t, attempt);
    }
  }

  lemma MoveKeepsInvariant(lim: Limits, s: State, s': State, t: nat)
    requires Invariant(s) && t < |s.threads| && Move(lim, s, s', t)
    ensures Invariant(s')
  {
    forall u | 0 <= u < |s.threads| && u != t ensures s'.threads[u] == s.threads[u] {
    }
    assert Holds(s'.threads[t]) == Holds(s.threads[t]);
    assert SnapshotInRange(s, s.threads[t]);
  }

  lemma CallKeepsInvariant(lim: Limits, s: State, s': State, t: nat, attempt: Attempt)
    requires Invariant(s) && t < |s.threads| && InventoryCall(lim, s, s', t, attempt)
    ensures Invariant(s')
  {
    forall u | 0 <= u < |s.threads| && u != t ensures s'.threads[u] == s.threads[u] {
    }
    assert Holds(s'.threads[t]) == Holds(s.threads[t]);
  }

  lemma LockKeepsInvariant(s: State, s': State, t: nat)
    requires Invariant(s) && t < |s.threads| && Lock(s, s', t)
    ensures Invariant(s')
  {
    var m := WaitsFor(s.threads[t]).value;
    forall u | 0 <= u < |s.threads|
      ensures u != t ==> s'.threads[u] == s.threads[u]
      ensures OwnedBy(s'.owner, u) == OwnedBy(s.owner, u) + if u == t then {m} else {}
    {
    }
    assert Holds(s'.threads[t]) == Holds(s.threads[t]) + {m};
  }

  lemma UnlockKeepsInvariant(s: State, s': State, t: nat)
    requires Invariant(s) && t < |s.threads| && Unlock(s, s', t)
    ensures Invariant(s')
  {
    var m := Leaves(s.threads[t]).value;
    assert m in OwnedBy(s.owner, t);
    forall u | 0 <= u < |s.threads|
      ensures OwnedBy(s'.owner, u) == OwnedBy(s.owner, u) - {m}
      ensures u != t ==> s'.threads[u] == s.threads[u] && m !in OwnedBy(s.owner, u)
    {
    }
    assert Holds(s'.threads[t]) == Holds(s.threads[t]) - {m};
  }

  lemma WriteKeepsInvariant(s: State, s': State, t: nat, ok: bool)
    requires Invariant(s) && t < |s.threads| && WriteObject(s, s', t, ok)
    ensures Invariant(s')
  {
    assert ConfigWrite in OwnedBy(s.owner, t);
    forall u | 0 <= u < |s.threads| && u != t
      ensures s'.threads[u] == s.threads[u] && !s.threads[u].Writing?
    {
      assert ConfigWrite !in OwnedBy(s.owner, u);
    }
  }

  lemma {:induction false} InvariantHolds(lim: Limits, states: seq<State>, n: nat)
    requires Schedule(lim, states) && n < |states|
    ensures Invariant(states[n])
  {
    if n > 0 {
      InvariantHolds(lim, states, n - 1);
      assert Step(lim, states[n - 1], states[n - 1 + 1]);
      StepKeepsInvariant(lim, states[n - 1], states[n]);
    }
  }

  // ---- what the mutexes give ----

  /** Ordered snapshots: in every schedule, a configuration computed from an older inventory
      never overwrites one computed from a newer inventory, and no configuration is older than
      the moment its writer took the configuration mutex. */
  lemma SnapshotsAreOrdered(lim: Limits, states: seq<State>, n: nat)
    requires Schedule(lim, states) && n < |states|
    ensures var w := states[n].writes;
            && (forall i, j :: 0 <= i < j < |w| ==> w[i].snapshot <= w[j].snapshot)
            && (forall i :: 0 <= i < |w| ==> w[i].since <= w[i].snapshot < |states[n].versions|)
  {
    InvariantHolds(lim, states, n);
  }

  /** Mutual exclusion for each of the three mutexes. */
  lemma MutualExclusion(lim: Limits, states: seq<State>, n: nat, t: nat, u: nat)
    requires Schedule(lim, states) && n < |states|
    requires t < |states[n].threads| && u < |states[n].threads| && t != u
    ensures Holds(states[n].threads[t]) !! Holds(states[n].threads[u])
  {
    InvariantHolds(lim, states, n);
    assert OwnedBy(states[n].owner, t) !! OwnedBy(states[n].owner, u);
  }

  predicate MayChangeInventory(s: State, t: nat) {
    && t < |s.threads|
    && ((IPUpdate in s.owner && s.owner[IPUpdate] == t) || (IPAllocate in s.owner && s.owner[IPAllocate] == t))
  }

  /** Calls are sent under a mutex: what changes the inventory, under the update or the allocate
      mutex; what writes a custom resource, under the configuration mutex, from an inventory that
      was read since this mutex was taken. */
  lemma CallsUnderMutex(lim: Limits, states: seq<State>, n: nat)
    requires Schedule(lim, states) && n + 1 < |states|
    ensures var s, s' := states[n], states[n + 1];
            && |s'.threads| == |s.threads|
            && (s'.versions != s.versions ==>
                  exists t: nat :: MayChangeInventory(s, t) && s'.threads == s.threads[t := s'.threads[t]])
            && (s'.writes != s.writes ==>
                  && ConfigWrite in s.owner && s.owner[ConfigWrite] < |s.threads|
                  && s.threads[s.owner[ConfigWrite]].Writing?
                  && s'.writes == s.writes + [Write(s.owner[ConfigWrite], s.threads[s.owner[ConfigWrite]].since,
                                                    s.threads[s.owner[ConfigWrite]].snapshot)])
  {
    var s, s' := states[n], states[n + 1];
    InvariantHolds(lim, states, n);
    assert Step(lim, s, s');
    var t: nat, attempt :| t < |s.threads| && StepOf(lim, s, s', t, attempt);
    if s'.versions != s.versions {
      var m := if s.threads[t].Detaching? then IPUpdate else IPAllocate;
      assert m in OwnedBy(s.owner, t);
      assert MayChangeInventory(s, t);
    }
    if s'.writes != s.writes {
      assert ConfigWrite in OwnedBy(s.owner, t);
    }
  }

  /** Where a thread can be that has acquired an address, but has neither written a configuration
      to its end nor begun to roll back. */
  predicate Underway(th: Thread) {
    match th
    case Publishing(_) | AwaitingConfig | Clearing => true
    case Configuring(allocating, _) => allocating
    case Writing(allocating, _, _, _, _) => allocating
    case Leaving(allocating, ok) => allocating && !ok
    case _ => false
  }

  ghost predicate Accounted(s: State) {
    forall t: nat :: t < |s.threads| && t in s.acquired && !Underway(s.threads[t]) ==>
      t in s.configured || t in s.rolledBack
  }

  /** One thread at a time: the others stay where they are, and their records too. */
  lemma OneThreadAccounted(s: State, s': State, t: nat)
    requires Accounted(s) && t < |s.threads| && |s'.threads| == |s.threads|
    requires s'.threads == s.threads[t := s'.threads[t]]
    requires s.configured <= s'.configured && s.rolledBack <= s'.rolledBack && s'.acquired <= s.acquired + {t}
    requires t in s'.acquired && !Underway(s'.threads[t]) ==> t in s'.configured || t in s'.rolledBack
    ensures Accounted(s')
  {
    forall u: nat | u < |s'.threads| && u != t ensures s'.threads[u] == s.threads[u] {
    }
  }

  lemma MoveKeepsAccounted(lim: Limits, s: State, s': State, t: nat)
    requires Accounted(s) && t < |s.threads| && |s.versions| > 0 && Move(lim, s, s', t)
    ensures Accounted(s')
  {
    OneThreadAccounted(s, s', t);
  }

  lemma CallKeepsAccounted(lim: Limits, s: State, s': State, t: nat, attempt: Attempt)
    requires Accounted(s) && t < |s.threads| && |s.versions| > 0 && InventoryCall(lim, s, s', t, attempt)
    ensures Accounted(s')
  {
    OneThreadAccounted(s, s', t);
  }

  lemma StepKeepsAccounted(lim: Limits, s: State, s': State)
    requires Accounted(s) && Step(lim, s, s')
    ensures Accounted(s')
  {
    var t: nat, attempt :| t < |s.threads| && StepOf(lim, s, s', t, attempt);
    if Move(lim, s, s', t) {
      MoveKeepsAccounted(lim, s, s', t);
    } else if InventoryCall(lim, s, s', t, attempt) {
      CallKeepsAccounted(lim, s, s', t, attempt);
    } else {
      OneThreadAccounted(s, s', t);
    }
  }

  /** No address is left alone: a thread that is done has acquired nothing, or its configuration
      was written to the end, or its rollback was sent. */
  lemma {:induction false} AcquiredIsConfiguredOrRolledBack(lim: Limits, states: seq<State>, n: nat, t: nat)
    requires Schedule(lim, states) && n < |states|
    ensures Accounted(states[n])
    ensures t < |states[n].threads| && states[n].threads[t].Finished? && t in states[n].acquired ==>
              t in states[n].configured || t in states[n].rolledBack
  {
    if n > 0 {
      AcquiredIsConfiguredOrRolledBack(lim, states, n - 1, t);
      assert Step(lim, states[n - 1], states[n - 1 + 1]);
      StepKeepsAccounted(lim, states[n - 1], states[n]);
    }
  }

  // ---- no deadlock ----

  function Rank(m: Mutex): nat {
    match m
    case IPUpdate => 0
    case IPAllocate => 1
    case ConfigWrite => 2
  }

  /** The lock order: a thread only ever waits for a mutex that comes after all it holds. */
  lemma LockOrder(th: Thread, m: Mutex)
    requires WaitsFor(th).Some? && m in Holds(th)
    ensures Rank(m) < Rank(WaitsFor(th).value)
  {
  }

  /** Behind every unfinished thread there is one that can step: itself, if it waits for no
      mutex or for a free one; otherwise one behind the owner of the mutex it waits for. */
  lemma SomeoneBehindCanStep(lim: Limits, s: State, t: nat)
    requires Invariant(s) && t < |s.threads| && !s.threads[t].Finished?
    ensures exists s' :: Step(lim, s, s')
    decreases match WaitsFor(s.threads[t]) { case Some(m) => 3 - Rank(m) case None => 0 }
  {
    var th := s.threads[t];
    if WaitsFor(th).None? {
      Proceeds(lim, s, t);
    } else if WaitsFor(th).value !in s.owner {
      var s' := Become(s, t, AfterLock(th, |s.versions| - 1)).(owner := s.owner[WaitsFor(th).value := t]);
      TakesStep(lim, s, s', t, Attempt(Free(""), false));
    } else {
      var m := WaitsFor(th).value;
      var u: nat := s.owner[m];
      assert m in OwnedBy(s.owner, u);
      if WaitsFor(s.threads[u]).Some? {
        LockOrder(s.threads[u], m);
      }
      SomeoneBehindCanStep(lim, s, u);
    }
  }

  lemma TakesStep(lim: Limits, s: State, s': State, t: nat, attempt: Attempt)
    requires t < |s.threads| && |s.versions| > 0 && StepOf(lim, s, s', t, attempt)
    ensures exists s'' :: Step(lim, s, s'')
  {
    assert Step(lim, s, s');
  }

  /** A thread that waits for no mutex can always go on, or leave where its work is done or a
      call of its own has failed. */
  lemma Proceeds(lim: Limits, s: State, t: nat)
    requires |s.versions| > 0 && t < |s.threads| && !s.threads[t].Finished? && WaitsFor(s.threads[t]).None?
    ensures exists s' :: Step(lim, s, s')
  {
    var th, attempt := s.threads[t], Attempt(Free(""), false);
    if Leaves(th).Some? {
      var s' := Become(s, t, AfterUnlock(th)).(owner := s.owner - {Leaves(th).value});
      TakesStep(lim, s, s', t, attempt);
    } else if AfterCall(lim, th, false).Some? {
      var inv := Replay(s.versions[|s.versions| - 1], [attempt]);
      var s' := Become(s, t, AfterCall(lim, th, false).value)
                .(versions := s.versions + [inv], acquired := s.acquired + {},
                  rolledBack := s.rolledBack + (if th.Clearing? then {t} else {}));
      TakesStep(lim, s, s', t, attempt);
    } else {
      var th' := match th
        case Publishing(_) => Clearing
        case Configuring(allocating, _) => Leaving(allocating, false)
        case Writing(allocating, _, _, passes, items) =>
          if items > 0 then th.(items := items - 1) else Leaving(allocating, passes == 0)
        case _ => Releasing;
      var done := th.Writing? && th' == Leaving(th.allocating, true);
      var s' := Become(s, t, th').(configured := s.configured + (if done then {t} else {}));
      assert Move(lim, s, s', t);
      TakesStep(lim, s, s', t, attempt);
    }
  }

  /** No deadlock: a schedule can be continued exactly while some thread is unfinished. */
  lemma SomeThreadCanStep(lim: Limits, states: seq<State>, n: nat)
    requires Schedule(lim, states) && n < |states|
    ensures (exists s' :: Step(lim, states[n], s'))
            <==> exists t :: 0 <= t < |states[n].threads| && !states[n].threads[t].Finished?
  {
    var s := states[n];
    InvariantHolds(lim, states, n);
    if t :| 0 <= t < |s.threads| && !s.threads[t].Finished? {
      SomeoneBehindCanStep(lim, s, t);
    }
  }

  // ---- and every schedule comes to an end ----

  function Stage(th: Thread): nat {
    match th
    case Start(_) => 11
    case Locked(_) => 10
    case Found => 9
    case Detaching(_, _, _) => 8
    case Allocating => 10
    case Publishing(_) => 9
    case AwaitingConfig => 8
    case Configuring(_, _) => 7
    case Writing(_, _, _, _, _) => 6
    case Leaving(_, _) => 5
    case Clearing => 4
    case Freeing => 3
    case Releasing | Returning => 2
    case Finished => 0
  }

  /** The addresses left of the list that was read, or the lists of objects left. */
  function Rounds(th: Thread): nat {
    match th
    case Detaching(_, todo, _) => todo
    case Writing(_, _, _, passes, _) => passes
    case _ => 0
  }

  /** What is left of a round: attempts on the address, attempts to update the service, objects
      of the list being gone through. */
  function Left(th: Thread): nat {
    match th
    case Detaching(_, _, left) => left
    case Publishing(left) => left
    case Writing(_, _, _, _, items) => items
    case _ => 0
  }

  function Sum(threads: seq<Thread>, f: Thread -> nat): nat {
    if threads == [] then 0 else Sum(threads[..|threads| - 1], f) + f(threads[|threads| - 1])
  }

  lemma {:induction false} SumAfterUpdate(threads: seq<Thread>, f: Thread -> nat, t: nat, th: Thread)
    requires t < |threads|
    ensures Sum(threads[t := th], f) == Sum(threads, f) - f(threads[t]) + f(th)
  {
    var n := |threads| - 1;
    if t < n {
      SumAfterUpdate(threads[..n], f, t, th);
      assert threads[t := th][..n] == threads[..n][t := th];
    } else {
      assert threads[t := th][..n] == threads[..n];
    }
  }

  predicate Lower(a: nat, b: nat, c: nat, a': nat, b': nat, c': nat) {
    a' < a || (a' == a && (b' < b || (b' == b && c' < c)))
  }

  predicate Lowers(th: Thread, th': Thread) {
    Lower(Stage(th), Rounds(th), Left(th), Stage(th'), Rounds(th'), Left(th'))
  }

  lemma LockLowers(th: Thread, now: nat)
    ensures WaitsFor(th).Some? ==> Lowers(th, AfterLock(th, now))
    ensures Leaves(th).Some? ==> Lowers(th, AfterUnlock(th))
  {
  }

  lemma CallLowers(lim: Limits, th: Thread, ok: bool)
    ensures AfterCall(lim, th, ok).Some? ==> Lowers(th, AfterCall(lim, th, ok).value)
  {
  }

  lemma InternalLowers(lim: Limits, s: State, th: Thread, th': Thread)
    requires |s.versions| > 0 && Internal(lim, s, th, th')
    ensures Lowers(th, th')
  {
  }

  lemma WriteLowers(s: State, s': State, t: nat, ok: bool)
    requires t < |s.threads| && WriteObject(s, s', t, ok)
    ensures |s'.threads| == |s.threads| && s'.threads == s.threads[t := s'.threads[t]]
    ensures Lowers(s.threads[t], s'.threads[t])
  {
  }

  lemma StepLowers(lim: Limits, s: State, s': State, t: nat, attempt: Attempt)
    requires t < |s.threads| && |s.versions| > 0 && StepOf(lim, s, s', t, attempt)
    ensures |s'.threads| == |s.threads| && s'.threads == s.threads[t := s'.threads[t]]
    ensures Lowers(s.threads[t], s'.threads[t])
  {
    var th := s.threads[t];
    if WriteObject(s, s', t, attempt.ok) {
      WriteLowers(s, s', t, attempt.ok);
    } else if Move(lim, s, s', t) {
      InternalLowers(lim, s, th, s'.threads[t]);
    } else {
      LockLowers(th, |s.versions| - 1);
      CallLowers(lim, th, attempt.ok);
    }
  }

  /** Every step goes on to a later stage, to the next list of objects, or past an attempt or an
      object of the list that was read: no schedule goes on forever. */
  lemma StepUsesUp(lim: Limits, s: State, s': State)
    requires Step(lim, s, s')
    ensures Lower(Sum(s.threads, Stage), Sum(s.threads, Rounds), Sum(s.threads, Left),
                  Sum(s'.threads, Stage), Sum(s'.threads, Rounds), Sum(s'.threads, Left))
  {
    var t: nat, attempt :| t < |s.threads| && StepOf(lim, s, s', t, attempt);
    var th' := s'.threads[t];
    StepLowers(lim, s, s', t, attempt);
    SumAfterUpdate(s.threads, Stage, t, th');
    SumAfterUpdate(s.threads, Rounds, t, th');
    SumAfterUpdate(s.threads, Left, t, th');
  }
}
