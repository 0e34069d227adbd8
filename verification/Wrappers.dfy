/** Optional values and call results, and what it means to pick some entries of a list. Error
    texts are not modelled: a failed call or computation is just `Err`. */
module Wrappers {
  datatype Option<+T> = None | Some(value: T)

  datatype Result<+T> = Ok(value: T) | Err

  /** Places among the first n, in strictly increasing order. */
  predicate Picks(idx: seq<nat>, n: nat) {
    && (forall k :: 0 <= k < |idx| ==> idx[k] < n)
    && (forall k, l :: 0 <= k < l < |idx| ==> idx[k] < idx[l])
  }

  lemma PicksSnoc(idx: seq<nat>, n: nat)
    requires Picks(idx, n)
    ensures Picks(idx, n + 1) && Picks(idx + [n], n + 1)
    ensures n !in idx && forall j: nat :: j in idx + [n] <==> j in idx || j == n
  {
    forall k | 0 <= k < |idx| ensures idx[k] != n {
    }
  }

  /** `part` are the entries of `whole` at these places, in order. */
  ghost predicate Embeds<T(!new)>(idx: seq<nat>, whole: seq<T>, part: seq<T>) {
    && Picks(idx, |whole|) && |idx| == |part|
    && forall k :: 0 <= k < |idx| ==> part[k] == whole[idx[k]]
  }

  lemma EmbedsSnoc<T(!new)>(idx: seq<nat>, whole: seq<T>, part: seq<T>, last: T)
    requires Embeds(idx, whole, part)
    ensures Embeds(idx, whole + [last], part)
    ensures Embeds(idx + [|whole|], whole + [last], part + [last])
  {
    PicksSnoc(idx, |whole|);
  }
}
