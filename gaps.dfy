/** The gap scanner: where a sequence of an alignment holds the gap symbol. */
module Gaps {
  import opened Common

  /** The gap symbol of the alignment. */
  const Gap: char := '-'

  /** The ascending list of the indices of `s` that hold the gap symbol,
      as a regular-expression scan for `-` reports them. It is used both on
      the reference (insertion columns) and on every sample (deletion
      columns). */
  function GapPositions(s: string): (r: seq<nat>)
    ensures StrictlyIncreasing(r)
    ensures forall k :: 0 <= k < |r| ==> r[k] < |s| && s[r[k]] == Gap
    ensures forall i :: 0 <= i < |s| && s[i] == Gap ==> i in r
  {
    if |s| == 0 then []
    else
      var earlier := GapPositions(s[..|s| - 1]);
      if s[|s| - 1] == Gap then earlier + [|s| - 1] else earlier
  }

  /** A sequence has no gap position exactly when it holds no gap symbol. */
  lemma NoGapPositions(s: string)
    ensures GapPositions(s) == [] <==> Gap !in s
  {
    var r := GapPositions(s);
    if Gap in s {
      var i :| 0 <= i < |s| && s[i] == Gap;
      assert i in r;
    }
    if r != [] {
      assert s[r[0]] == Gap;
    }
  }
}
