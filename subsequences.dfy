/** Positions of a boolean mask: the vocabulary in which both filters of the
    paragraph extractor (the length filter of the splitter and the relevance
    threshold of the selection loop) are characterised as "keep, in the
    original order, exactly the elements whose position passes". */
module Subsequences {

  /** `idx` lists positions below `n` in strictly increasing order. */
  ghost predicate StrictlyIncreasingBelow(idx: seq<nat>, n: nat) {
    (forall k :: 0 <= k < |idx| ==> idx[k] < n) &&
    (forall k, l :: 0 <= k < l < |idx| ==> idx[k] < idx[l])
  }

  /** The positions at which `mask` holds, in increasing order. Built by
      appending, as a Python list comprehension or accumulator loop does. */
  function Positions(mask: seq<bool>): (idx: seq<nat>)
    ensures |idx| <= |mask|
    ensures StrictlyIncreasingBelow(idx, |mask|)
    ensures forall i :: 0 <= i < |mask| ==> (mask[i] <==> i in idx)
  {
    if mask == [] then []
    else
      var n := |mask| - 1;
      assert forall i :: 0 <= i < n ==> mask[..n][i] == mask[i];
      Positions(mask[..n]) + (if mask[n] then [n] else [])
  }

  /** One step of a filter built by appending: if `picked` is what the
      positions of the mask on all but the last element pick, then appending
      the last element when its mask bit is set is what the positions of the
      whole mask pick. */
  lemma AppendPick<T>(src: seq<T>, mask: seq<bool>, frontIdx: seq<nat>, picked: seq<T>)
    requires |mask| == |src| > 0
    requires frontIdx == Positions(mask[..|mask| - 1])
    requires |picked| == |frontIdx|
    requires forall k :: 0 <= k < |frontIdx| ==> picked[k] == src[frontIdx[k]]
    ensures var n := |src| - 1;
      var idx := Positions(mask);
      var all := picked + (if mask[n] then [src[n]] else []);
      |all| == |idx| && forall k :: 0 <= k < |idx| ==> all[k] == src[idx[k]]
  {
  }
}
