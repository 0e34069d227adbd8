/** Read, change, write with retry on conflict, against writers that are not under our control
    (resources/kubernetes/node.go, and the service update in loadbalancer.go). */
module Optimistic {
  import opened Wrappers

  datatype Write<T> = Write(own: bool, value: T)

  /** What became of an update. */
  datatype Outcome = Stored | Conflicted | Refused | Panicked

  predicate IsPrefix<T(==)>(h: seq<T>, h': seq<T>) {
    |h| <= |h'| && h'[..|h|] == h
  }

  /** All writes from some version up to another are by others. */
  predicate OthersBetween<T>(h: seq<Write<T>>, from: nat, to: nat) {
    forall i :: from <= i < |h| && i < to ==> !h[i].own
  }

  predicate OthersSince<T>(h: seq<Write<T>>, from: nat) {
    OthersBetween(h, from, |h|)
  }

  /** An object of the cluster. Others may write it at any time; every write raises the version,
      and an update is accepted only against the current version. */
  class Versioned<T(0,==,!new)> {
    var value: T
    var version: nat
    ghost var history: seq<Write<T>>  // history[v] made version v
    ghost var refusals: nat  // how many of our calls were refused

    ghost predicate Valid()
      reads this
    {
      |history| == version + 1 && history[version].value == value
    }

    method OthersWrite()
      requires Valid()
      modifies this
      ensures Valid() && IsPrefix(old(history), history) && OthersSince(history, |old(history)|)
      ensures refusals == old(refusals)
    {
      var n: nat := *;
      while n > 0
        invariant Valid() && IsPrefix(old(history), history) && OthersSince(history, |old(history)|)
        invariant refusals == old(refusals)
      {
        var v: T := *;
        value, version, n := v, version + 1, n - 1;
        history := history + [Write(false, v)];
      }
    }

    method Get() returns (r: Result<(T, nat)>)
      requires Valid()
      modifies this
      ensures Valid() && IsPrefix(old(history), history) && OthersSince(history, |old(history)|)
      ensures r.Ok? ==> r.value == (value, version)
      ensures refusals == old(refusals) + if r.Err? then 1 else 0
    {
      OthersWrite();
      var failed: bool := *;
      if failed { refusals := refusals + 1; }
      r := if failed then Err else Ok((value, version));
    }

    method Update(v: T, read: nat) returns (outcome: Outcome)
      requires Valid()
      modifies this
      ensures Valid() && IsPrefix(old(history), history) && !outcome.Panicked?
      ensures outcome.Stored? ==>
                && |history| == read + 2 && |history| > |old(history)| && history[read + 1] == Write(true, v)
                && OthersBetween(history, |old(history)|, read + 1)
      ensures !outcome.Stored? ==> OthersSince(history, |old(history)|)
      ensures refusals == old(refusals) + if outcome.Refused? then 1 else 0
      ensures outcome.Conflicted? ==> |history| != read + 1
    {
      OthersWrite();
      var failed: bool := *;
      if failed {
        refusals := refusals + 1;
        return Refused;
      }
      if version != read { return Conflicted; }
      value, version := v, version + 1;
      history := history + [Write(true, v)];
      return Stored;
    }
  }

  ghost predicate AllValid<T(0,!new)>(objects: set<Versioned<T>>)
    reads objects
  {
    forall o :: o in objects ==> o.Valid()
  }

  /** What a call added to a history: foreign writes, and at the end its own if it was stored,
      which is then the change applied to exactly the version that it replaced. */
  ghost predicate Appended<T>(h: seq<Write<T>>, h': seq<Write<T>>, change: T -> Option<T>, outcome: Outcome) {
    && IsPrefix(h, h')
    && (outcome.Stored? ==>
          && |h| < |h'| && |h'| >= 2 && h'[|h'| - 1].own
          && change(h'[|h'| - 2].value) == Some(h'[|h'| - 1].value)
          && OthersBetween(h', |h|, |h'| - 1))
    && (!outcome.Stored? ==> OthersSince(h', |h|))
  }

  /** retry.RetryOnConflict: a conflict leads to another attempt, and nothing else does, at most
      `steps` in all. A conflict needs a write by others since the read. So unless a call of ours
      is refused, or others write during each of `steps` attempts, a defined change is stored. */
  method RetryOnConflict<T(0,==,!new)>(obj: Versioned<T>, steps: nat, change: T -> Option<T>)
      returns (outcome: Outcome, attempts: nat)
    requires obj.Valid() && steps > 0
    modifies obj
    ensures obj.Valid() && Appended(old(obj.history), obj.history, change, outcome)
    ensures 1 <= attempts <= steps && |obj.history| >= |old(obj.history)| + attempts - 1
    ensures outcome.Conflicted? ==> attempts == steps && |obj.history| >= |old(obj.history)| + steps
    ensures obj.refusals == old(obj.refusals) + if outcome.Refused? then 1 else 0
    ensures outcome.Panicked? ==> change(obj.value).None?
  {
    outcome, attempts := Conflicted, 0;
    while attempts < steps
      invariant obj.Valid() && attempts <= steps && outcome.Conflicted?
      invariant IsPrefix(old(obj.history), obj.history) && OthersSince(obj.history, |old(obj.history)|)
      invariant obj.refusals == old(obj.refusals) && |obj.history| >= |old(obj.history)| + attempts
    {
      attempts := attempts + 1;
      var got := obj.Get();
      if got.Err? { return Refused, attempts; }
      var changed := change(got.value.0);
      if changed.None? { return Panicked, attempts; }
      ghost var before := obj.history;
      outcome := obj.Update(changed.value, got.value.1);
      assert outcome.Stored? ==> obj.history[got.value.1] == before[got.value.1];
      if !outcome.Conflicted? { return; }
    }
  }

  // ---- node annotations ----

  datatype NodeObject = NodeObject(labels: map<string, string>, annotations: Option<map<string, string>>, rest: string)

  /** maps.Copy into the annotations: a missing map cannot take any entry. */
  function CopyAnnotations(given: map<string, string>): NodeObject -> Option<NodeObject> {
    (n: NodeObject) =>
      if n.annotations.None? then (if given == map[] then Some(n) else None)
      else Some(n.(annotations := Some(n.annotations.value + given)))
  }

  function Annotation(n: NodeObject, k: string): Option<string> {
    if n.annotations.Some? && k in n.annotations.value then Some(n.annotations.value[k]) else None
  }

  /** Sets the given annotations, and loses nothing: the version written has every other
      annotation, label and field of the version that it replaced, whoever wrote that one. */
  method UpdateNodeAnnotationsWithBackoff(node: Versioned<NodeObject>, given: map<string, string>, steps: nat)
      returns (outcome: Outcome)
    requires node.Valid() && steps > 0
    modifies node
    ensures node.Valid() && Appended(old(node.history), node.history, CopyAnnotations(given), outcome)
    ensures outcome.Stored? ==>
              var replaced := node.history[|node.history| - 2].value;
              && node.value.labels == replaced.labels && node.value.rest == replaced.rest
              && (forall k :: k in given ==> Annotation(node.value, k) == Some(given[k]))
              && (forall k :: k !in given ==> Annotation(node.value, k) == Annotation(replaced, k))
    ensures outcome.Panicked? ==> node.value.annotations.None? && given != map[]
    ensures outcome.Conflicted? ==> |node.history| >= |old(node.history)| + steps
    ensures node.refusals == old(node.refusals) + if outcome.Refused? then 1 else 0
  {
    var attempts: nat;
    outcome, attempts := RetryOnConflict(node, steps, CopyAnnotations(given));
  }

  /** In a history, every write of ours is a copy of given annotations into the version before. */
  ghost predicate OwnWritesCopy(h: seq<Write<NodeObject>>, keys: set<string>) {
    forall i :: 0 < i < |h| && h[i].own ==>
      exists given: map<string, string> ::
        given.Keys <= keys && CopyAnnotations(given)(h[i - 1].value) == Some(h[i].value)
  }

  lemma AnnotationUpdatesCopy(h: seq<Write<NodeObject>>, h': seq<Write<NodeObject>>, given: map<string, string>,
                              outcome: Outcome, keys: set<string>)
    requires h != [] && OwnWritesCopy(h, keys) && given.Keys <= keys
    requires Appended(h, h', CopyAnnotations(given), outcome)
    ensures OwnWritesCopy(h', keys)
  {
    forall i | 0 < i < |h'| && h'[i].own
      ensures exists g: map<string, string> ::
                g.Keys <= keys && CopyAnnotations(g)(h'[i - 1].value) == Some(h'[i].value)
    {
      if i < |h| {
        assert h'[..|h|][i] == h[i] && h'[..|h|][i - 1] == h[i - 1];
      } else {
        assert CopyAnnotations(given)(h'[i - 1].value) == Some(h'[i].value);
      }
    }
  }

  /** So whatever anyone last said about a key that is not ours is still there, however many
      updates of ours came in between. */
  lemma {:induction false} ForeignAnnotationsSurvive(h: seq<Write<NodeObject>>, keys: set<string>, i: nat, k: string)
    requires OwnWritesCopy(h, keys) && k !in keys && i < |h|
    requires forall j :: i < j < |h| ==> h[j].own
    ensures Annotation(h[|h| - 1].value, k) == Annotation(h[i].value, k)
    ensures h[|h| - 1].value.labels == h[i].value.labels && h[|h| - 1].value.rest == h[i].value.rest
    decreases |h| - i
  {
    if i + 1 < |h| {
      assert h[i + 1].own;
      var given: map<string, string> :| given.Keys <= keys
              && CopyAnnotations(given)(h[i + 1 - 1].value) == Some(h[i + 1].value);
      ForeignAnnotationsSurvive(h, keys, i + 1, k);
    }
  }

  // ---- services ----

  datatype ServiceObject = ServiceObject(loadBalancerIP: string, rest: string)

  function SetLoadBalancerIP(ip: string): ServiceObject -> Option<ServiceObject> {
    (s: ServiceObject) => Some(s.(loadBalancerIP := ip))
  }
}
