/** Value types shared by the other modules. */
module Basics {
  datatype Option<+T> = None | Some(value: T)

  newtype byte = x: int | 0 <= x < 256
  type Bytes = seq<byte>

  /** These positions, in order and each once, are exactly the ones below `n` that qualify. */
  ghost predicate Picks(at: seq<nat>, n: nat, qualifies: nat -> bool) {
    && (forall j :: 0 <= j < |at| ==> at[j] < n)
    && (forall j, k :: 0 <= j < k < |at| ==> at[j] < at[k])
    && (forall i: nat :: i < n ==> (i in at <==> qualifies(i)))
  }

  function MovedUp(at: seq<nat>): (r: seq<nat>)
    ensures |r| == |at| && forall j :: 0 <= j < |at| ==> r[j] == at[j] + 1
  {
    seq(|at|, j requires 0 <= j < |at| => at[j] + 1)
  }

  lemma MovedUpHas(at: seq<nat>, i: nat)
    ensures i in MovedUp(at) <==> i > 0 && i - 1 in at
  {
    if j :| 0 <= j < |at| && at[j] == i - 1 {
      assert MovedUp(at)[j] == i;
    }
    if j :| 0 <= j < |at| && MovedUp(at)[j] == i {
      assert at[j] == i - 1;
    }
  }

  /** With one more position in front. */
  lemma PicksMore(at: seq<nat>, n: nat, before: nat -> bool, after: nat -> bool)
    requires Picks(at, n, before) && forall i: nat :: i < n ==> after(i + 1) == before(i)
    ensures Picks((if after(0) then [0] else []) + MovedUp(at), n + 1, after)
  {
    var first: seq<nat> := if after(0) then [0] else [];
    forall i: nat | i < n + 1 ensures i in first + MovedUp(at) <==> after(i) {
      MovedUpHas(at, i);
      if i > 0 {
        assert after(i - 1 + 1) == before(i - 1);
      }
    }
  }
}
