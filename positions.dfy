/** Sequences of positions, used to say that one sequence is an
    order-preserving selection from another. */
module Positions {

  predicate StrictlyIncreasing(s: seq<nat>)
  {
    forall a, b :: 0 <= a < b < |s| ==> s[a] < s[b]
  }

  /** Appending a position beyond all others keeps the order. */
  lemma IncreasingSnoc(idx: seq<nat>, n: nat)
    requires StrictlyIncreasing(idx)
    requires forall k :: 0 <= k < |idx| ==> idx[k] < n
    ensures StrictlyIncreasing(idx + [n])
    ensures forall k :: 0 <= k < |idx| + 1 ==> (idx + [n])[k] <= n
    ensures forall i :: i in idx + [n] <==> i in idx || i == n
  {
  }

  /** The positions holding `true`, in increasing order. */
  function TrueIndices(flags: seq<bool>): seq<nat>
  {
    if flags == [] then []
    else TrueIndices(flags[..|flags| - 1]) + (if flags[|flags| - 1] then [|flags| - 1] else [])
  }

  /** The positions are increasing, in range, and are exactly those holding
      `true`. */
  lemma {:induction false} TrueIndicesSpec(flags: seq<bool>)
    ensures StrictlyIncreasing(TrueIndices(flags))
    ensures forall k :: 0 <= k < |TrueIndices(flags)| ==> TrueIndices(flags)[k] < |flags|
    ensures forall i :: 0 <= i < |flags| ==> (i in TrueIndices(flags) <==> flags[i])
  {
    if flags != [] {
      var n := |flags|;
      var init := flags[..n - 1];
      TrueIndicesSpec(init);
      if flags[n - 1] {
        IncreasingSnoc(TrueIndices(init), n - 1);
      }
    }
  }
}
