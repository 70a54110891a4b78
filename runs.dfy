/** The deletion run extractor: split the gap positions of a sequence into
    maximal runs of consecutive integers. */
module Runs {
  import opened Common
  import opened Gaps

  /** Each element is the previous one plus one. */
  predicate Consecutive(g: seq<int>)
  {
    forall i :: 0 < i < |g| ==> g[i] == g[i - 1] + 1
  }

  /** The runs laid end to end. */
  function Flatten(gs: seq<seq<int>>): seq<int>
  {
    if |gs| == 0 then [] else gs[0] + Flatten(gs[1..])
  }

  /** The last element of a non-empty run. */
  function Last(g: seq<int>): int
    requires |g| > 0
  {
    g[|g| - 1]
  }

  /** Groups a list of integers into runs of consecutive values, breaking
      wherever the next value is not the previous one plus one. */
  function ConsecutiveGroups(ps: seq<int>): (r: seq<seq<int>>)
    ensures |r| == 0 <==> |ps| == 0
    ensures forall j :: 0 <= j < |r| ==> |r[j]| > 0
    ensures |ps| > 0 ==> r[0][0] == ps[0]
  {
    if |ps| == 0 then []
    else
      var rest := ConsecutiveGroups(ps[1..]);
      if |ps| > 1 && ps[1] == ps[0] + 1 then [[ps[0]] + rest[0]] + rest[1..]
      else [[ps[0]]] + rest
  }

  /** Every run is non-empty and consecutive. */
  lemma {:induction false} GroupsConsecutive(ps: seq<int>)
    ensures forall j :: 0 <= j < |ConsecutiveGroups(ps)| ==>
      |ConsecutiveGroups(ps)[j]| > 0 && Consecutive(ConsecutiveGroups(ps)[j])
  {
    if |ps| > 0 {
      GroupsConsecutive(ps[1..]);
      var rest := ConsecutiveGroups(ps[1..]);
      var r := ConsecutiveGroups(ps);
      if |ps| > 1 && ps[1] == ps[0] + 1 {
        assert r[0] == [ps[0]] + rest[0];
        assert forall j :: 0 < j < |r| ==> r[j] == rest[j];
      } else {
        assert forall j :: 0 < j < |r| ==> r[j] == rest[j - 1];
      }
    }
  }

  /** The runs, laid end to end, give back the list: they partition it in
      order. */
  lemma {:induction false} GroupsFlatten(ps: seq<int>)
    ensures Flatten(ConsecutiveGroups(ps)) == ps
  {
    if |ps| > 0 {
      GroupsFlatten(ps[1..]);
      var rest := ConsecutiveGroups(ps[1..]);
      var r := ConsecutiveGroups(ps);
      if |ps| > 1 && ps[1] == ps[0] + 1 {
        assert Flatten(rest) == rest[0] + Flatten(rest[1..]);
        assert r[1..] == rest[1..];
        assert Flatten(r) == ([ps[0]] + rest[0]) + Flatten(rest[1..]);
        assert ps == [ps[0]] + ps[1..];
      } else {
        assert r[1..] == rest;
        assert ps == [ps[0]] + ps[1..];
      }
    }
  }

  /** The runs are maximal: no run starts right after the end of the run
      before it. */
  lemma {:induction false} GroupsMaximal(ps: seq<int>)
    ensures forall j :: 0 < j < |ConsecutiveGroups(ps)| ==>
      ConsecutiveGroups(ps)[j][0] != Last(ConsecutiveGroups(ps)[j - 1]) + 1
  {
    if |ps| > 0 {
      GroupsMaximal(ps[1..]);
      GroupsConsecutive(ps[1..]);
      var rest := ConsecutiveGroups(ps[1..]);
      var r := ConsecutiveGroups(ps);
      if |ps| > 1 && ps[1] == ps[0] + 1 {
        assert forall j :: 0 < j < |r| ==> r[j] == rest[j];
        assert |rest| > 1 ==> Last(r[0]) == Last(rest[0]);
      } else {
        assert forall j :: 0 < j < |r| ==> r[j] == rest[j - 1];
      }
    }
  }

  /** On an ascending list, each run starts more than one past the end of
      the run before it. */
  lemma {:induction false} GroupsAscending(ps: seq<int>)
    requires StrictlyIncreasing(ps)
    ensures forall j :: 0 < j < |ConsecutiveGroups(ps)| ==>
      ConsecutiveGroups(ps)[j][0] > Last(ConsecutiveGroups(ps)[j - 1]) + 1
  {
    if |ps| > 0 {
      assert StrictlyIncreasing(ps[1..]);
      GroupsAscending(ps[1..]);
      GroupsConsecutive(ps[1..]);
      var rest := ConsecutiveGroups(ps[1..]);
      var r := ConsecutiveGroups(ps);
      if |ps| > 1 && ps[1] == ps[0] + 1 {
        assert forall j :: 0 < j < |r| ==> r[j] == rest[j];
        assert |rest| > 1 ==> Last(r[0]) == Last(rest[0]);
      } else {
        assert forall j :: 0 < j < |r| ==> r[j] == rest[j - 1];
        if |ps| > 1 {
          assert ps[1] > ps[0];
        }
      }
    }
  }

  /** The deletion runs of a sequence: its gap positions, grouped into
      maximal runs of consecutive positions. */
  function FindDeletions(s: string): (r: seq<seq<int>>)
    ensures forall j :: 0 <= j < |r| ==> |r[j]| > 0 && Consecutive(r[j])
    ensures Flatten(r) == GapPositions(s)
    ensures forall j :: 0 < j < |r| ==> r[j][0] > Last(r[j - 1]) + 1
  {
    var ps := GapPositions(s);
    GroupsConsecutive(ps);
    GroupsFlatten(ps);
    GroupsAscending(ps);
    ConsecutiveGroups(ps)
  }

  /** A sequence without gaps has no deletion runs. */
  lemma NoGapsNoRuns(s: string)
    requires Gap !in s
    ensures FindDeletions(s) == []
  {
    NoGapPositions(s);
  }

  /** Every position of every run is a position of `s` that holds a gap. */
  lemma RunMemberIsGap(s: string, j: nat, x: int)
    requires j < |FindDeletions(s)| && x in FindDeletions(s)[j]
    ensures 0 <= x < |s| && s[x] == Gap
  {
    var r := FindDeletions(s);
    FlattenMember(r, j, x);
    var ps := GapPositions(s);
    var k :| 0 <= k < |ps| && ps[k] == x;
  }

  /** A member of a run is a member of the flattened list. */
  lemma {:induction false} FlattenMember(gs: seq<seq<int>>, j: nat, x: int)
    requires j < |gs| && x in gs[j]
    ensures x in Flatten(gs)
  {
    if j > 0 {
      FlattenMember(gs[1..], j - 1, x);
    }
  }

  /** A run of consecutive values counts up from its first element. */
  lemma {:induction false} ConsecutiveAt(g: seq<int>, i: nat)
    requires Consecutive(g) && i < |g|
    ensures g[i] == g[0] + i
  {
    if i > 0 {
      ConsecutiveAt(g, i - 1);
    }
  }

  /** A worked example: `[5, 6, 7, 10, 11]` gives `[5, 6, 7]`
      and `[10, 11]`. */
  lemma ExampleGroups()
    ensures ConsecutiveGroups([5, 6, 7, 10, 11]) == [[5, 6, 7], [10, 11]]
  {
    assert ConsecutiveGroups([11]) == [[11]] by {
      assert [11][1..] == [];
    }
    assert ConsecutiveGroups([10, 11]) == [[10, 11]] by {
      assert [10, 11][1..] == [11];
      assert ConsecutiveGroups([11]) == [[11]];
      assert [10] + [11] == [10, 11];
    }
    assert ConsecutiveGroups([7, 10, 11]) == [[7], [10, 11]] by {
      assert [7, 10, 11][1..] == [10, 11];
    }
    assert ConsecutiveGroups([6, 7, 10, 11]) == [[6, 7], [10, 11]] by {
      assert [6, 7, 10, 11][1..] == [7, 10, 11];
      assert [6] + [7] == [6, 7];
    }
    assert [5] + [6, 7] == [5, 6, 7];
    assert [5, 6, 7, 10, 11][1..] == [6, 7, 10, 11];
  }
}
