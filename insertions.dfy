/** The insertion remover: delete a set of alignment columns from a
    sequence, keeping every other character in its original order. */
module Insertions {
  import opened Common
  import opened Gaps

  /** Reference definition: `s` with the characters at the indices in `cols`
      filtered out, the others kept in their original relative order. */
  function Drop(s: string, cols: set<int>): string
  {
    if |s| == 0 then []
    else Drop(s[..|s| - 1], cols) + (if |s| - 1 in cols then [] else [s[|s| - 1]])
  }

  /** Filtering out no column leaves the sequence as it is. */
  lemma {:induction false} DropNothing(s: string)
    ensures Drop(s, {}) == s
  {
    if |s| > 0 {
      DropNothing(s[..|s| - 1]);
      assert s[..|s| - 1] + [s[|s| - 1]] == s;
    }
  }

  /** Only the columns that exist in `s` matter. */
  lemma {:induction false} DropInRange(s: string, cols: set<int>, cols': set<int>)
    requires forall k :: 0 <= k < |s| ==> (k in cols <==> k in cols')
    ensures Drop(s, cols) == Drop(s, cols')
  {
    if |s| > 0 {
      DropInRange(s[..|s| - 1], cols, cols');
    }
  }

  /** When every filtered column lies before `q`, the part of `s` from `q`
      on is kept whole. */
  lemma {:induction false} DropSplit(s: string, cols: set<int>, q: nat)
    requires q <= |s|
    requires forall k :: k in cols ==> k < q
    ensures Drop(s, cols) == Drop(s[..q], cols) + s[q..]
  {
    if |s| > q {
      var t := s[..|s| - 1];
      DropSplit(t, cols, q);
      assert t[..q] == s[..q];
      assert t[q..] + [s[|s| - 1]] == s[q..];
    } else {
      assert s[..q] == s;
    }
  }

  /** One step of the removal loop: when the columns in `cols` lie before
      `pos` and have already been filtered out, deleting the character at the
      shifted index `pos - i` filters out column `pos` as well. */
  lemma DropStep(s: string, cols: set<int>, pos: nat, i: nat)
    requires pos < |s|
    requires forall k :: k in cols ==> 0 <= k < pos
    requires |Drop(s, cols)| == |s| - i
    ensures i <= pos
    ensures var r := Drop(s, cols);
      r[..pos - i] + r[pos + 1 - i..] == Drop(s, cols + {pos})
  {
    var left := Drop(s[..pos], cols);
    DropSplit(s, cols, pos);
    assert |left| == pos - i;
    DropSplit(s, cols + {pos}, pos + 1);
    var s' := s[..pos + 1];
    assert s'[..pos] == s[..pos];
    assert Drop(s', cols + {pos}) == Drop(s[..pos], cols + {pos});
    DropInRange(s[..pos], cols + {pos}, cols);
    assert s[pos..][1..] == s[pos + 1..];
  }

  /** Filtering out at least every gap column leaves no gap. */
  lemma {:induction false} DropGaps(s: string, cols: set<int>)
    requires forall k :: 0 <= k < |s| && s[k] == Gap ==> k in cols
    ensures Gap !in Drop(s, cols)
  {
    if |s| > 0 {
      DropGaps(s[..|s| - 1], cols);
    }
  }

  /** The reference, stripped of the columns where it holds a gap, has no
      gap left: the sanity check of the normalizer can never fail. */
  lemma ReferenceGapFree(reference: string)
    ensures GapPositions(Drop(reference, Elements(GapPositions(reference)))) == []
  {
    var cols := Elements(GapPositions(reference));
    DropGaps(reference, cols);
    NoGapPositions(Drop(reference, cols));
  }

  /** Removes the columns `positions` from `seq` one at a time, in ascending
      order; the i-th removal has already shortened the sequence by i, so
      the column originally at `pos` is found at `pos - i`. */
  method RemoveInsertions(s: string, positions: seq<nat>) returns (r: string)
    requires StrictlyIncreasing(positions)
    requires forall k :: 0 <= k < |positions| ==> positions[k] < |s|
    ensures r == Drop(s, Elements(positions))
    ensures |r| == |s| - |positions|
  {
    r := s;
    DropNothing(s);
    assert Elements(positions[..0]) == {};
    for i := 0 to |positions|
      invariant r == Drop(s, Elements(positions[..i]))
      invariant |r| == |s| - i
    {
      var pos := positions[i];
      DropStep(s, Elements(positions[..i]), pos, i);
      r := r[..pos - i] + r[pos + 1 - i..];
      assert positions[..i + 1] == positions[..i] + [pos];
      assert Elements(positions[..i + 1]) == Elements(positions[..i]) + {pos};
    }
    assert positions[..|positions|] == positions;
  }
}
