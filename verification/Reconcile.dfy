/** Driving one kind of custom resource to a desired list: delete what is not wanted, then
    create or update in list order. Both load balancer back ends are made of such passes
    (config/metallb_config.go, config/cilium_config.go). */
module Reconcile {
  import opened Wrappers

  datatype Named<Spec> = Named(name: string, spec: Spec)

  datatype Change<Spec> = Deleted(name: string) | Created(name: string, spec: Spec) | Updated(name: string, spec: Spec)

  /** What a list asks for: under each name the spec of its last entry. */
  function Latest<Spec>(desired: seq<Named<Spec>>): map<string, Spec> {
    if desired == [] then map[]
    else
      var last := desired[|desired| - 1];
      Latest(desired[..|desired| - 1])[last.name := last.spec]
  }

  predicate Wanted<Spec>(desired: seq<Named<Spec>>, name: string) {
    exists i :: 0 <= i < |desired| && desired[i].name == name
  }

  lemma {:induction false} LatestIsLastEntry<Spec>(desired: seq<Named<Spec>>, name: string)
    ensures name in Latest(desired) <==> Wanted(desired, name)
    ensures name in Latest(desired) ==>
              exists i :: 0 <= i < |desired| && desired[i] == Named(name, Latest(desired)[name])
                          && forall j :: i < j < |desired| ==> desired[j].name != name
  {
    if desired != [] {
      var n := |desired| - 1;
      LatestIsLastEntry(desired[..n], name);
      if desired[n].name == name {
        assert desired[n] == Named(name, Latest(desired)[name]);
      } else if name in Latest(desired[..n]) {
        var i :| 0 <= i < n && desired[..n][i] == Named(name, Latest(desired[..n])[name])
                 && forall j :: i < j < n ==> desired[..n][j].name != name;
        assert desired[i] == Named(name, Latest(desired)[name]);
        assert forall j :: i < j < n ==> desired[j] == desired[..n][j];
      } else {
        assert forall i :: 0 <= i < n ==> desired[i] == desired[..n][i];
      }
    }
  }

  /** `names` enumerates a set, each element once, in any order. */
  ghost predicate IsEnumeration(names: seq<string>, s: set<string>) {
    && (forall i :: 0 <= i < |names| ==> names[i] in s)
    && (forall i, j :: 0 <= i < j < |names| ==> names[i] != names[j])
    && (forall n :: n in s ==> n in names)
  }

  method Enumerate(s: set<string>) returns (names: seq<string>)
    ensures IsEnumeration(names, s)
  {
    names := [];
    var rest := s;
    while rest != {}
      invariant rest <= s && IsEnumeration(names, s - rest)
    {
      var n :| n in rest;
      rest, names := rest - {n}, names + [n];
    }
    assert s - rest == s;
  }

  /** The objects of one kind in the cluster. Calls may fail, and then change nothing. */
  class Collection<Spec(==)> {
    var objects: map<string, Spec>
    ghost var changes: seq<Change<Spec>>
    ghost var failures: nat

    method List() returns (r: Result<seq<string>>)
      modifies this`failures
      ensures r.Ok? ==> IsEnumeration(r.value, objects.Keys)
      ensures failures == old(failures) + if r.Err? then 1 else 0
    {
      var failed: bool := *;
      if failed {
        failures := failures + 1;
        return Err;
      }
      var names := Enumerate(objects.Keys);
      return Ok(names);
    }

    method Delete(name: string) returns (ok: bool)
      modifies this
      ensures objects == if ok then old(objects) - {name} else old(objects)
      ensures changes == if ok then old(changes) + [Deleted(name)] else old(changes)
      ensures failures == old(failures) + if ok then 0 else 1
    {
      ok := *;
      if ok {
        objects := objects - {name};
        changes := changes + [Deleted(name)];
      } else {
        failures := failures + 1;
      }
    }

    /** Reads the object, and writes it only if it is missing or has another spec. */
    method CreateOrUpdate(name: string, spec: Spec) returns (ok: bool)
      modifies this
      ensures objects == if ok then old(objects)[name := spec] else old(objects)
      ensures changes == if ok then old(changes) + ChangeFor(old(objects), name, spec) else old(changes)
      ensures failures == old(failures) + if ok then 0 else 1
    {
      ok := *;
      if ok {
        changes := changes + ChangeFor(objects, name, spec);
        if name !in objects || objects[name] != spec {
          objects := objects[name := spec];
        }
      } else {
        failures := failures + 1;
      }
    }
  }

  function ChangeFor<Spec(==)>(objects: map<string, Spec>, name: string, spec: Spec): seq<Change<Spec>> {
    if name !in objects then [Created(name, spec)]
    else if objects[name] != spec then [Updated(name, spec)]
    else []
  }

  /** The changes of creating or updating a whole list. */
  function Upserts<Spec(==)>(objects: map<string, Spec>, desired: seq<Named<Spec>>): seq<Change<Spec>> {
    if desired == [] then []
    else
      var front, last := desired[..|desired| - 1], desired[|desired| - 1];
      Upserts(objects, front) + ChangeFor(objects + Latest(front), last.name, last.spec)
  }

  /** What changes make of the objects; a change must fit the objects. */
  function Changed<Spec>(objects: map<string, Spec>, changes: seq<Change<Spec>>): Option<map<string, Spec>> {
    if changes == [] then Some(objects)
    else
      var before := Changed(objects, changes[..|changes| - 1]);
      if before.None? then None
      else
        match changes[|changes| - 1]
        case Deleted(n) => if n in before.value then Some(before.value - {n}) else None
        case Created(n, spec) => if n in before.value then None else Some(before.value[n := spec])
        case Updated(n, spec) => if n in before.value then Some(before.value[n := spec]) else None
  }

  /** The recorded changes are what happened: they lead from the old objects to the new ones. */
  lemma {:induction false} UpsertsLead<Spec(!new)>(objects: map<string, Spec>, desired: seq<Named<Spec>>, n: nat)
    requires n <= |desired|
    ensures Changed(objects, Upserts(objects, desired[..n])) == Some(objects + Latest(desired[..n]))
  {
    if n == 0 {
      assert objects + map[] == objects;
    } else {
      UpsertsLead(objects, desired, n - 1);
      OneMoreUpsert(objects, desired, n - 1);
    }
  }

  lemma OneMoreUpsert<Spec(!new)>(objects: map<string, Spec>, desired: seq<Named<Spec>>, i: nat)
    requires i < |desired|
    requires Changed(objects, Upserts(objects, desired[..i])) == Some(objects + Latest(desired[..i]))
    ensures Changed(objects, Upserts(objects, desired[..i + 1])) == Some(objects + Latest(desired[..i + 1]))
  {
    OneMoreChange(objects, Upserts(objects, desired[..i]), objects + Latest(desired[..i]), desired[i]);
    UpsertsSnoc(objects, desired, i);
  }

  lemma OneMoreChange<Spec(!new)>(objects: map<string, Spec>, changes: seq<Change<Spec>>, now: map<string, Spec>,
                                  next: Named<Spec>)
    requires Changed(objects, changes) == Some(now)
    ensures Changed(objects, changes + ChangeFor(now, next.name, next.spec)) == Some(now[next.name := next.spec])
  {
    var more := ChangeFor(now, next.name, next.spec);
    if more == [] {
      assert changes + more == changes && now[next.name := next.spec] == now;
    } else {
      assert (changes + more)[..|changes|] == changes;
    }
  }

  function Restrict<Spec>(objects: map<string, Spec>, desired: seq<Named<Spec>>): map<string, Spec> {
    map n | n in objects && Wanted(desired, n) :: objects[n]
  }

  /** Between the old objects and the desired ones: every object has its old spec or a desired
      one, and no desired object that was there is missing. */
  ghost predicate Between<Spec(!new)>(before: map<string, Spec>, now: map<string, Spec>, desired: seq<Named<Spec>>) {
    && (forall n :: n in now ==> (n in before && now[n] == before[n]) || Named(n, now[n]) in desired)
    && (forall n :: n in before && Wanted(desired, n) ==> n in now)
  }

  /** Changes of a sweep: deletions of old objects that are not wanted. */
  ghost predicate OnlyUnwanted<Spec(!new)>(swept: seq<Change<Spec>>, before: map<string, Spec>,
                                    desired: seq<Named<Spec>>) {
    forall c :: c in swept ==> c.Deleted? && c.name in before && !Wanted(desired, c.name)
  }

  method Contains<Spec>(desired: seq<Named<Spec>>, name: string) returns (found: bool)
    ensures found <==> Wanted(desired, name)
  {
    found := false;
    for i := 0 to |desired|
      invariant !found && forall j :: 0 <= j < i ==> desired[j].name != name
    {
      if desired[i].name == name {
        return true;
      }
    }
  }

  /** Deletes every object that is not on the list. */
  method Sweep<Spec(!new,==)>(c: Collection<Spec>, desired: seq<Named<Spec>>)
    returns (ok: bool, ghost swept: seq<Change<Spec>>)
    modifies c
    ensures Between(old(c.objects), c.objects, desired)
    ensures c.objects.Keys <= old(c.objects).Keys
    ensures ok ==> c.objects == Restrict(old(c.objects), desired)
    ensures c.changes == old(c.changes) + swept && OnlyUnwanted(swept, old(c.objects), desired)
    ensures c.failures == old(c.failures) + if ok then 0 else 1
  {
    swept := [];
    ghost var before, changes := c.objects, c.changes;
    var listed := c.List();
    if listed.Err? { return false, swept; }
    var names := listed.value;
    for i := 0 to |names|
      invariant c.changes == changes + swept && OnlyUnwanted(swept, before, desired)
      invariant Swept(before, c.objects, desired) && c.failures == old(c.failures)
      invariant forall j :: 0 <= j < i && names[j] in c.objects ==> Wanted(desired, names[j])
    {
      var found := Contains(desired, names[i]);
      if !found {
        var deleted := c.Delete(names[i]);
        if !deleted { return false, swept; }
        assert names[i] in before;
        OneMoreUnwanted(swept, names[i], before, desired);
        swept := swept + [Deleted(names[i])];
      }
    }
    assert c.objects == Restrict(before, desired) by {
      forall n | n in c.objects ensures Wanted(desired, n) {
        assert n in names;
      }
    }
    return true, swept;
  }

  /** Some of the old objects, and all of those that are wanted. */
  ghost predicate Swept<Spec(!new)>(before: map<string, Spec>, now: map<string, Spec>, desired: seq<Named<Spec>>) {
    && (forall n :: n in now ==> n in before && now[n] == before[n])
    && (forall n :: n in before && Wanted(desired, n) ==> n in now)
  }

  lemma OneMoreUnwanted<Spec(!new)>(swept: seq<Change<Spec>>, name: string, before: map<string, Spec>,
                             desired: seq<Named<Spec>>)
    requires OnlyUnwanted(swept, before, desired) && name in before && !Wanted(desired, name)
    ensures OnlyUnwanted(swept + [Deleted(name)], before, desired)
  {
  }

  /** Creates or updates every object of the list, in order; `n` of them if it is stopped. */
  method Upsert<Spec(!new,==)>(c: Collection<Spec>, desired: seq<Named<Spec>>) returns (ok: bool, ghost n: nat)
    modifies c
    ensures n <= |desired| && (ok ==> n == |desired|)
    ensures c.objects == old(c.objects) + Latest(desired[..n])
    ensures c.changes == old(c.changes) + Upserts(old(c.objects), desired[..n])
    ensures Changed(old(c.objects), Upserts(old(c.objects), desired[..n])) == Some(c.objects)
    ensures c.failures == old(c.failures) + if ok then 0 else 1
  {
    ghost var before, changes := c.objects, c.changes;
    assert before + Latest(desired[..0]) == before;
    for i := 0 to |desired|
      invariant c.objects == before + Latest(desired[..i])
      invariant c.changes == changes + Upserts(before, desired[..i]) && c.failures == old(c.failures)
    {
      UpsertsSnoc(before, desired, i);
      assert changes + Upserts(before, desired[..i]) + ChangeFor(c.objects, desired[i].name, desired[i].spec)
          == changes + Upserts(before, desired[..i + 1]);
      var done := c.CreateOrUpdate(desired[i].name, desired[i].spec);
      if !done {
        UpsertsLead(before, desired, i);
        return false, i;
      }
    }
    UpsertsLead(before, desired, |desired|);
    return true, |desired|;
  }

  lemma UpsertsSnoc<Spec(!new)>(objects: map<string, Spec>, desired: seq<Named<Spec>>, i: nat)
    requires i < |desired|
    ensures var now, next := objects + Latest(desired[..i]), desired[i];
            && objects + Latest(desired[..i + 1]) == now[next.name := next.spec]
            && Upserts(objects, desired[..i + 1])
               == Upserts(objects, desired[..i]) + ChangeFor(now, next.name, next.spec)
  {
    assert desired[..i + 1][..i] == desired[..i];
  }

  lemma PartOfLatest<Spec>(desired: seq<Named<Spec>>, i: nat)
    requires i <= |desired|
    ensures forall n :: n in Latest(desired[..i]) ==> Named(n, Latest(desired[..i])[n]) in desired
  {
    forall n | n in Latest(desired[..i]) ensures Named(n, Latest(desired[..i])[n]) in desired {
      LatestIsLastEntry(desired[..i], n);
    }
  }

  lemma UpsertsStayBetween<Spec(!new)>(before: map<string, Spec>, middle: map<string, Spec>,
                                desired: seq<Named<Spec>>, n: nat)
    requires n <= |desired| && Between(before, middle, desired)
    ensures Between(before, middle + Latest(desired[..n]), desired)
  {
    PartOfLatest(desired, n);
  }

  lemma AllOfLatest<Spec(!new)>(before: map<string, Spec>, desired: seq<Named<Spec>>)
    ensures Restrict(before, desired) + Latest(desired) == Latest(desired)
  {
    LatestNames(desired);
  }

  /** One pass. If it gets through, exactly the desired objects are there, whatever was there
      before; wherever it stops, the objects are between the old and the desired ones. */
  method Pass<Spec(!new,==)>(c: Collection<Spec>, desired: seq<Named<Spec>>)
    returns (ok: bool, ghost swept: seq<Change<Spec>>)
    modifies c
    ensures Between(old(c.objects), c.objects, desired)
    ensures ok ==> c.objects == Latest(desired)
    ensures OnlyUnwanted(swept, old(c.objects), desired)
    ensures ok ==> c.changes == old(c.changes) + swept + Upserts(Restrict(old(c.objects), desired), desired)
    ensures c.failures == old(c.failures) + if ok then 0 else 1
  {
    ok, swept := Sweep(c, desired);
    if !ok { return; }
    ghost var middle := c.objects;
    ghost var n;
    ok, n := Upsert(c, desired);
    UpsertsStayBetween(old(c.objects), middle, desired, n);
    if ok {
      assert desired[..n] == desired;
      AllOfLatest(old(c.objects), desired);
    }
  }

  // ---- stopping and resuming, running again ----

  /** Stopping half-way any number of times does not change where a complete pass ends up, and
      the objects stay between the first ones and the desired ones. */
  lemma {:induction false} BetweenIsClosed<Spec(!new)>(states: seq<map<string, Spec>>, desired: seq<Named<Spec>>)
    requires states != []
    requires forall i :: 0 <= i < |states| - 1 ==> Between(states[i], states[i + 1], desired)
    ensures Between(states[0], states[|states| - 1], desired)
  {
    if |states| > 1 {
      var front := states[..|states| - 1];
      BetweenIsClosed(front, desired);
      var n := |states| - 2;
      assert Between(states[n], states[n + 1], desired);
    }
  }

  /** Entries of the same name have the same spec. */
  predicate Consistent<Spec(==)>(desired: seq<Named<Spec>>) {
    forall i, j :: 0 <= i < |desired| && 0 <= j < |desired| && desired[i].name == desired[j].name ==>
        desired[i] == desired[j]
  }

  lemma {:induction false} UpsertsOverPresent<Spec(!new)>(objects: map<string, Spec>, desired: seq<Named<Spec>>)
    requires forall i :: 0 <= i < |desired| ==> desired[i].name in objects
    ensures forall c :: c in Upserts(objects, desired) ==> c.Updated?
    ensures Upserts(objects, desired) == [] <==> forall i :: 0 <= i < |desired| ==>
        objects[desired[i].name] == desired[i].spec
  {
    if desired != [] {
      var n := |desired| - 1;
      var front := desired[..n];
      assert forall i :: 0 <= i < n ==> front[i] == desired[i];
      UpsertsOverPresent(objects, front);
      if Upserts(objects, front) == [] {
        forall m | m in Latest(front) ensures m in objects && objects[m] == Latest(front)[m] {
          LatestIsLastEntry(front, m);
        }
        assert objects + Latest(front) == objects;
      }
    }
  }

  lemma LatestNames<Spec(!new)>(desired: seq<Named<Spec>>)
    ensures forall n :: n in Latest(desired) <==> Wanted(desired, n)
    ensures forall i :: 0 <= i < |desired| ==> desired[i].name in Latest(desired)
  {
    forall n ensures n in Latest(desired) <==> Wanted(desired, n) {
      LatestIsLastEntry(desired, n);
    }
  }

  lemma ConsistentIff<Spec(!new)>(desired: seq<Named<Spec>>)
    requires forall i :: 0 <= i < |desired| ==> desired[i].name in Latest(desired)
    ensures (forall i :: 0 <= i < |desired| ==> Latest(desired)[desired[i].name] == desired[i].spec)
            <==> Consistent(desired)
  {
    if Consistent(desired) {
      forall i | 0 <= i < |desired| ensures Latest(desired)[desired[i].name] == desired[i].spec {
        LatestIsLastEntry(desired, desired[i].name);
      }
    }
  }

  /** A second pass over its own result deletes and creates nothing. It is silent exactly if no
      two entries of the same name differ; otherwise it goes through the same updates again. */
  lemma SecondPass<Spec(!new)>(desired: seq<Named<Spec>>, swept: seq<Change<Spec>>)
    requires OnlyUnwanted(swept, Latest(desired), desired)
    ensures swept == []
    ensures Restrict(Latest(desired), desired) == Latest(desired)
    ensures forall c :: c in Upserts(Latest(desired), desired) ==> c.Updated?
    ensures Upserts(Latest(desired), desired) == [] <==> Consistent(desired)
  {
    LatestNames(desired);
    ConsistentIff(desired);
    UpsertsOverPresent(Latest(desired), desired);
    if swept != [] {
      FirstIsIn(swept);
      assert false;
    }
  }

  lemma FirstIsIn<T>(s: seq<T>)
    requires s != []
    ensures s[0] in s
  {
  }
}
