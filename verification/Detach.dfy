/** Removing a service's reference from addresses (loadbalancer.go, removeServiceTagFromIPs
    and removeServiceTag): what is sent, attempt by attempt, and what it does. */
module Detach {
  import opened Wrappers
  import opened Metal

  /** The tags without every copy of `tag`, in order. */
  function Kept(tags: seq<string>, tag: string): (r: seq<string>)
    ensures |r| <= |tags|
  {
    if tags == [] then []
    else
      var last := tags[|tags| - 1];
      Kept(tags[..|tags| - 1], tag) + if last == tag then [] else [last]
  }

  function Blanks(n: nat): seq<string> {
    seq(n, _ => "")
  }

  /** A tag slice after `slices.DeleteFunc`: the kept tags moved to the front, the tail cleared. */
  function Compacted(tags: seq<string>, tag: string): seq<string> {
    Kept(tags, tag) + Blanks(|tags| - |Kept(tags, tag)|)
  }

  /** The response's tag slice when attempt number k starts: each attempt compacts it again. */
  function TagsAt(tags: seq<string>, tag: string, k: nat): seq<string> {
    if k == 0 then tags else Compacted(TagsAt(tags, tag, k - 1), tag)
  }

  /** What attempt number k sends for a response. */
  function DetachCall(ip: IPResponse, tag: string, k: nat): Call
    requires ip.ipaddress.Some?
  {
    var newTags := Kept(TagsAt(ip.tags, tag, k), tag);
    if ip.iptype == Some(EPHEMERAL) && |newTags| == 0 then Free(ip.ipaddress.value)
    else Update(ip.ipaddress.value, newTags)
  }

  function FailedAttempts(ip: IPResponse, tag: string, n: nat): seq<Attempt>
    requires ip.ipaddress.Some?
  {
    if n == 0 then [] else FailedAttempts(ip, tag, n - 1) + [Attempt(DetachCall(ip, tag, n - 1), false)]
  }

  /** One address: `fails` failed attempts, then a successful one if any of `attempts` is left. */
  function DetachLog(ip: IPResponse, tag: string, fails: nat, attempts: nat): seq<Attempt>
    requires ip.ipaddress.Some?
  {
    FailedAttempts(ip, tag, fails) + if fails < attempts then [Attempt(DetachCall(ip, tag, fails), true)] else []
  }

  predicate Addressed(ips: seq<IPResponse>) {
    forall i :: 0 <= i < |ips| ==> ips[i].ipaddress.Some?
  }

  /** The first |plan| addresses of a list; plan[i] counts the failed attempts for address i. */
  function DetachAllLog(ips: seq<IPResponse>, tag: string, plan: seq<nat>, attempts: nat): seq<Attempt>
    requires Addressed(ips) && |plan| <= |ips|
  {
    if plan == [] then []
    else
      var n := |plan| - 1;
      DetachAllLog(ips, tag, plan[..n], attempts) + DetachLog(ips[n], tag, plan[n], attempts)
  }

  /** Every address of n was detached. */
  predicate Complete(plan: seq<nat>, n: nat, attempts: nat) {
    |plan| == n && forall i :: 0 <= i < |plan| ==> plan[i] < attempts
  }

  /** The attempts ran out on the last address tried. */
  predicate Broken(plan: seq<nat>, n: nat, attempts: nat) {
    0 < |plan| <= n && plan[|plan| - 1] == attempts && Complete(plan[..|plan| - 1], |plan| - 1, attempts)
  }

  // ---- retrying over a compacted slice ----

  lemma {:induction false} KeptIsExact(tags: seq<string>, tag: string)
    ensures tag !in Kept(tags, tag)
    ensures forall t :: t != tag ==> multiset(Kept(tags, tag))[t] == multiset(tags)[t]
    ensures forall t :: t in Kept(tags, tag) <==> t in tags && t != tag
  {
    if tags != [] {
      var front := tags[..|tags| - 1];
      KeptIsExact(front, tag);
      assert tags == front + [tags[|tags| - 1]];
    }
  }

  /** Exactly the other tags, each as often as it was, in order. */
  lemma {:induction false} KeptIsFiltered(tags: seq<string>, tag: string)
    ensures exists idx :: KeptAt(idx, tags, tag)
  {
    if tags == [] {
      assert KeptAt([], tags, tag);
    } else {
      var front, last := tags[..|tags| - 1], tags[|tags| - 1];
      KeptIsFiltered(front, tag);
      OneMoreKept(front, last, tag);
      assert front + [last] == tags;
    }
  }

  lemma OneMoreKept(front: seq<string>, last: string, tag: string)
    requires exists idx :: KeptAt(idx, front, tag)
    ensures exists idx :: KeptAt(idx, front + [last], tag)
  {
    var idx :| KeptAt(idx, front, tag);
    KeptAtSnoc(idx, front, last, tag);
  }

  /** The kept tags are those at these places, which are the places of the other tags. */
  ghost predicate KeptAt(idx: seq<nat>, tags: seq<string>, tag: string) {
    && Embeds(idx, tags, Kept(tags, tag))
    && forall j: nat :: j < |tags| ==> (j in idx <==> tags[j] != tag)
  }

  lemma KeptAtSnoc(idx: seq<nat>, front: seq<string>, last: string, tag: string)
    requires KeptAt(idx, front, tag)
    ensures KeptAt(if last == tag then idx else idx + [|front|], front + [last], tag)
  {
    assert (front + [last])[..|front|] == front;
    assert Kept(front, tag) + [] == Kept(front, tag);
    EmbedsSnoc(idx, front, Kept(front, tag), last);
    PicksSnoc(idx, |front|);
  }

  lemma {:induction false} KeptOfOthers(tags: seq<string>, tag: string)
    requires tag !in tags
    ensures Kept(tags, tag) == tags
  {
    if tags != [] {
      var front := tags[..|tags| - 1];
      KeptOfOthers(front, tag);
      assert tags == front + [tags[|tags| - 1]];
    }
  }

  /** After the first attempt the slice holds the kept tags and one blank per removed copy,
      and later attempts change it no more. */
  lemma {:induction false} TagsAfterFirstAttempt(tags: seq<string>, tag: string, k: nat)
    requires tag != "" && k > 0
    ensures TagsAt(tags, tag, k) == Compacted(tags, tag)
    ensures Kept(TagsAt(tags, tag, k), tag) == Compacted(tags, tag)
  {
    KeptIsExact(tags, tag);
    KeptOfOthers(Compacted(tags, tag), tag);
    if k > 1 {
      TagsAfterFirstAttempt(tags, tag, k - 1);
      assert Blanks(0) == [];
    }
  }

  /** The tags that attempt number k sends. */
  function SentTags(tags: seq<string>, tag: string, k: nat): seq<string> {
    if k == 0 then Kept(tags, tag) else Compacted(tags, tag)
  }

  lemma SentTagsExact(tags: seq<string>, tag: string, k: nat)
    requires tag != ""
    ensures Kept(TagsAt(tags, tag, k), tag) == SentTags(tags, tag, k)
    ensures tag !in SentTags(tags, tag, k) && Kept(tags, tag) <= SentTags(tags, tag, k)
    ensures SentTags(tags, tag, k) == [] <==> tags == [] || (k == 0 && forall t :: t in tags ==> t == tag)
  {
    var kept := Kept(tags, tag);
    KeptIsExact(tags, tag);
    if k > 0 {
      TagsAfterFirstAttempt(tags, tag, k);
    } else if kept == [] {
      assert forall t :: t in tags ==> t in kept || t == tag;
    } else {
      assert kept[0] in kept;
    }
  }

  /** Exactly what each attempt asks for. The first one sends the kept tags, or frees an
      ephemeral address that keeps none. Every later one sends one blank per removed copy
      besides, so that an address that carried the tag is then never freed. */
  lemma RetryCalls(ip: IPResponse, tag: string, k: nat)
    requires ip.ipaddress.Some? && tag != ""
    ensures DetachCall(ip, tag, k) ==
              var sent := SentTags(ip.tags, tag, k);
              if ip.iptype == Some(EPHEMERAL) && sent == [] then Free(ip.ipaddress.value)
              else Update(ip.ipaddress.value, sent)
    ensures DetachCall(ip, tag, k).Free? <==>
            ip.iptype == Some(EPHEMERAL) && (ip.tags == [] || (k == 0 && forall t :: t in ip.tags ==> t == tag))
    ensures DetachCall(ip, tag, k).Update? ==>
            tag !in DetachCall(ip, tag, k).tags && Kept(ip.tags, tag) <= DetachCall(ip, tag, k).tags
  {
    SentTagsExact(ip.tags, tag, k);
  }

  /** So failed attempts keep an unused ephemeral address alive, whichever later one succeeds,
      with a blank for each copy of the tag. */
  lemma FailedFreeLeavesBlankTag(inv: Inventory, a: string, tag: string, fails: nat, attempts: nat)
    requires tag != "" && a in inv && inv[a].iptype == EPHEMERAL
    requires inv[a].tags != [] && forall t :: t in inv[a].tags ==> t == tag
    ensures Replay(inv, DetachLog(Response(a, inv[a]), tag, fails, attempts))
            == if fails >= attempts then inv
               else if fails == 0 then inv - {a}
               else inv[a := inv[a].(tags := Blanks(|inv[a].tags|))]
  {
    var ip := Response(a, inv[a]);
    SentTagsExact(inv[a].tags, tag, 0);
    assert Kept(inv[a].tags, tag) == [];
    assert [] + Blanks(|inv[a].tags|) == Blanks(|inv[a].tags|);
    RetryCalls(ip, tag, fails);
    DetachEffect(inv, ip, tag, fails, attempts);
  }

  // ---- what detaching does to the inventory, address by address ----

  function Lookup(inv: Inventory, a: string): Option<IPRecord> {
    if a in inv then Some(inv[a]) else None
  }

  /** What attempt k makes of a record. */
  function Detached(r: IPRecord, tag: string, k: nat): Option<IPRecord> {
    var newTags := Kept(TagsAt(r.tags, tag, k), tag);
    if r.iptype == EPHEMERAL && newTags == [] then None else Some(r.(tags := newTags))
  }

  lemma {:induction false} FailuresHaveNoEffect(inv: Inventory, ip: IPResponse, tag: string, n: nat)
    requires ip.ipaddress.Some?
    ensures Replay(inv, FailedAttempts(ip, tag, n)) == inv
  {
    if n > 0 {
      FailuresHaveNoEffect(inv, ip, tag, n - 1);
      ReplaySnoc(inv, FailedAttempts(ip, tag, n - 1), Attempt(DetachCall(ip, tag, n - 1), false));
    }
  }

  lemma DetachEffect(inv: Inventory, ip: IPResponse, tag: string, fails: nat, attempts: nat)
    requires ip.ipaddress.Some?
    ensures Replay(inv, DetachLog(ip, tag, fails, attempts))
            == if fails < attempts then Effect(inv, DetachCall(ip, tag, fails)) else inv
  {
    FailuresHaveNoEffect(inv, ip, tag, fails);
    var failed := FailedAttempts(ip, tag, fails);
    if fails < attempts {
      ReplaySnoc(inv, failed, Attempt(DetachCall(ip, tag, fails), true));
    } else {
      assert failed + [] == failed;
    }
  }

  lemma DetachCallEffect(inv: Inventory, a: string, tag: string, k: nat)
    requires a in inv
    ensures var after := Effect(inv, DetachCall(Response(a, inv[a]), tag, k));
            Lookup(after, a) == Detached(inv[a], tag, k) && forall b :: b != a ==> Lookup(after, b) == Lookup(inv, b)
  {
  }

  lemma DetachAllSnoc(inv: Inventory, sent: seq<Attempt>, ips: seq<IPResponse>, tag: string, plan: seq<nat>,
                      fails: nat, attempts: nat)
    requires Addressed(ips) && |plan| < |ips|
    ensures var log, more := DetachAllLog(ips, tag, plan, attempts), DetachLog(ips[|plan|], tag, fails, attempts);
            && DetachAllLog(ips, tag, plan + [fails], attempts) == log + more
            && sent + log + more == sent + (log + more)
            && Replay(inv, log + more) == Replay(Replay(inv, log), more)
  {
    assert (plan + [fails])[..|plan|] == plan;
    ReplayConcat(inv, DetachAllLog(ips, tag, plan, attempts), DetachLog(ips[|plan|], tag, fails, attempts));
    ConcatAssociative(sent, DetachAllLog(ips, tag, plan, attempts), DetachLog(ips[|plan|], tag, fails, attempts));
  }

  lemma ConcatAssociative<T>(a: seq<T>, b: seq<T>, c: seq<T>)
    ensures a + b + c == a + (b + c)
  {
  }

  /** What the first |plan| addresses and all others are after a detach. */
  ghost predicate DetachedAsPlanned(inv: Inventory, after: Inventory, ips: seq<IPResponse>, tag: string,
                                    plan: seq<nat>, attempts: nat)
    requires Addressed(ips) && |plan| <= |ips|
    requires forall i :: 0 <= i < |ips| ==> ips[i].ipaddress.value in inv
  {
    && (forall i :: 0 <= i < |plan| ==>
          var a := ips[i].ipaddress.value;
          Lookup(after, a) == if plan[i] < attempts then Detached(inv[a], tag, plan[i]) else Lookup(inv, a))
    && (forall a :: (forall i :: 0 <= i < |plan| ==> ips[i].ipaddress != Some(a)) ==>
        Lookup(after, a) == Lookup(inv, a))
  }

  /** Each detached address changes on its own, and nothing else changes. */
  lemma {:induction false} DetachAllEffect(inv: Inventory, chosen: set<string>, ips: seq<IPResponse>, tag: string,
                                           plan: seq<nat>, attempts: nat)
    requires IsListing(ips, inv, chosen) && |plan| <= |ips|
    ensures DetachedAsPlanned(inv, Replay(inv, DetachAllLog(ips, tag, plan, attempts)), ips, tag, plan, attempts)
  {
    if plan == [] {
    } else {
      var n := |plan| - 1;
      var front := plan[..n];
      assert plan == front + [plan[n]];
      DetachAllEffect(inv, chosen, ips, tag, front, attempts);
      DetachAllSnoc(inv, [], ips, tag, front, plan[n], attempts);
      var mid := Replay(inv, DetachAllLog(ips, tag, front, attempts));
      DetachEffect(mid, ips[n], tag, plan[n], attempts);
      DetachNextEffect(inv, mid, chosen, ips, tag, front, plan[n], attempts);
    }
  }

  lemma DetachNextEffect(inv: Inventory, mid: Inventory, chosen: set<string>, ips: seq<IPResponse>, tag: string,
                         front: seq<nat>, fails: nat, attempts: nat)
    requires IsListing(ips, inv, chosen) && |front| < |ips|
    requires DetachedAsPlanned(inv, mid, ips, tag, front, attempts)
    ensures var after := if fails < attempts then Effect(mid, DetachCall(ips[|front|], tag, fails)) else mid;
            DetachedAsPlanned(inv, after, ips, tag, front + [fails], attempts)
  {
    var n := |front|;
    var a := ips[n].ipaddress.value;
    assert Lookup(mid, a) == Lookup(inv, a);
    assert ips[n] == Response(a, mid[a]);
    DetachCallEffect(mid, a, tag, fails);
  }
}
