/** The coordinate normalizer: strip the reference's insertion columns from
    every record of the alignment, check that the reference is left without
    gaps, and cut every sequence to the coding window. */
module Normalizer {
  import opened Common
  import opened Gaps
  import opened Insertions

  /** One record of the alignment. The reader gives each record an `id` and
      a `name`; the lookup of the reference matches on `name`, the table of
      sequences is keyed by `id`. */
  datatype Record = Record(id: string, name: string, residues: string)

  /** Why normalization can fail. */
  datatype Error = ReferenceNotFound

  /** The sequences of an alignment all have the same width. */
  predicate EqualWidths(records: seq<Record>)
  {
    forall i, j :: 0 <= i < |records| && 0 <= j < |records| ==>
      |records[i].residues| == |records[j].residues|
  }

  /** The index of the first record called `name`, if there is one. */
  function FindRecord(records: seq<Record>, name: string): (r: Option<nat>)
    ensures r.None? <==> forall k :: 0 <= k < |records| ==> records[k].name != name
    ensures r.Some? ==> r.value < |records| && records[r.value].name == name
    ensures r.Some? ==> forall k :: 0 <= k < r.value ==> records[k].name != name
  {
    if |records| == 0 then None
    else if records[0].name == name then Some(0)
    else
      match FindRecord(records[1..], name)
      case None => None
      case Some(k) => Some(k + 1)
  }

  /** The sequence of the first record called `name`, if there is one. */
  function SequenceOf(records: seq<Record>, name: string): Option<string>
  {
    match FindRecord(records, name)
    case None => None
    case Some(k) => Some(records[k].residues)
  }

  /** The lookup depends on the names alone. */
  lemma {:induction false} FindRecordByNames(a: seq<Record>, b: seq<Record>, name: string)
    requires |a| == |b|
    requires forall k :: 0 <= k < |a| ==> a[k].name == b[k].name
    ensures FindRecord(a, name) == FindRecord(b, name)
  {
    if |a| > 0 && a[0].name != name {
      FindRecordByNames(a[1..], b[1..], name);
    }
  }

  /** Scans the records in order and stops at the first one called
      `sampleName`; `None` stands for the failure of the source when no
      record has that name. */
  method GetSeq(records: seq<Record>, sampleName: string) returns (r: Option<string>)
    ensures r == SequenceOf(records, sampleName)
    ensures r.None? <==> forall k :: 0 <= k < |records| ==> records[k].name != sampleName
  {
    r := None;
    var i := 0;
    while i < |records|
      invariant 0 <= i <= |records|
      invariant forall k :: 0 <= k < i ==> records[k].name != sampleName
    {
      if records[i].name == sampleName {
        r := Some(records[i].residues);
        break;
      }
      i := i + 1;
    }
  }

  /** The index Python's slicing uses for the bound `i` of a sequence of
      length `n`: a negative bound counts from the end, and the result is
      clamped to `0..n`. */
  function SliceBound(i: int, n: nat): (b: nat)
    ensures b <= n
    ensures 0 <= i ==> b == if i <= n then i else n
    ensures i < 0 && 0 <= i + n ==> b == i + n
    ensures i + n < 0 ==> b == 0
  {
    if i < 0 then (if i + n < 0 then 0 else i + n)
    else if i > n then n
    else i
  }

  /** Python's `s[lo:hi]`. */
  function PySlice(s: string, lo: int, hi: int): (r: string)
    ensures 0 <= lo && 0 <= hi ==>
      |r| == (if (if hi < |s| then hi else |s|) <= lo then 0 else (if hi < |s| then hi else |s|) - lo)
    ensures 0 <= lo ==> forall k :: 0 <= k < |r| ==> lo + k < |s| && r[k] == s[lo + k]
  {
    var a := SliceBound(lo, |s|);
    var b := SliceBound(hi, |s|);
    if a < b then s[a..b] else []
  }

  /** The default coding window, `[265, 29674)`. */
  const MinPos: int := 265
  const MaxPos: int := 29674

  /** A Python dictionary from sample identifier to sequence, as the list of
      its entries in insertion order. */
  type Dict = seq<(string, string)>

  /** The keys of a dictionary. */
  function KeySet(d: Dict): set<string>
  {
    set i | 0 <= i < |d| :: d[i].0
  }

  /** The keys of a dictionary with one more entry in front. */
  lemma KeySetCons(e: (string, string), d: Dict)
    ensures KeySet([e] + d) == {e.0} + KeySet(d)
  {
    var d' := [e] + d;
    forall x | x in KeySet(d') ensures x in {e.0} + KeySet(d) {
      var i :| 0 <= i < |d'| && d'[i].0 == x;
      if i > 0 {
        assert d[i - 1].0 == x;
      }
    }
    forall x | x in KeySet(d) ensures x in KeySet(d') {
      var i :| 0 <= i < |d| && d[i].0 == x;
      assert d'[i + 1].0 == x;
    }
    assert d'[0].0 == e.0;
  }

  /** No key has two entries. */
  predicate DistinctKeys(d: Dict)
  {
    forall i, j :: 0 <= i < j < |d| ==> d[i].0 != d[j].0
  }

  /** `d[key]`, or `None` when there is no such key. */
  function Lookup(d: Dict, key: string): Option<string>
  {
    if |d| == 0 then None
    else if d[0].0 == key then Some(d[0].1)
    else Lookup(d[1..], key)
  }

  /** Dictionary assignment `d[key] = value`: an existing key keeps its
      place and gets the new value, a new key is added at the end. */
  function Put(d: Dict, key: string, value: string): Dict
  {
    if |d| == 0 then [(key, value)]
    else if d[0].0 == key then [(key, value)] + d[1..]
    else [d[0]] + Put(d[1..], key, value)
  }

  /** Assignment adds `key` to the keys and no other. */
  lemma {:induction false} PutKeys(d: Dict, key: string, value: string)
    ensures KeySet(Put(d, key, value)) == KeySet(d) + {key}
  {
    if |d| > 0 {
      assert d == [d[0]] + d[1..];
      KeySetCons(d[0], d[1..]);
      if d[0].0 == key {
        KeySetCons((key, value), d[1..]);
      } else {
        PutKeys(d[1..], key, value);
        KeySetCons(d[0], Put(d[1..], key, value));
      }
    } else {
      KeySetCons((key, value), d);
      assert [(key, value)] + d == Put(d, key, value);
    }
  }

  /** Assignment never creates a second entry for a key. */
  lemma {:induction false} PutDistinct(d: Dict, key: string, value: string)
    requires DistinctKeys(d)
    ensures DistinctKeys(Put(d, key, value))
  {
    if |d| > 0 && d[0].0 != key {
      var rest := Put(d[1..], key, value);
      PutDistinct(d[1..], key, value);
      PutKeys(d[1..], key, value);
      forall j | 0 <= j < |rest| ensures rest[j].0 != d[0].0 {
        assert rest[j].0 in KeySet(rest);
        if rest[j].0 != key {
          var i :| 0 <= i < |d[1..]| && d[1..][i].0 == rest[j].0;
          assert d[i + 1].0 == rest[j].0;
        }
      }
    }
  }

  /** After `d[key] = value`, `d[key]` is `value` and every other key keeps
      its value. */
  lemma {:induction false} PutLookup(d: Dict, key: string, value: string, k: string)
    ensures Lookup(Put(d, key, value), k) == if k == key then Some(value) else Lookup(d, k)
  {
    if |d| > 0 && d[0].0 != key {
      PutLookup(d[1..], key, value, k);
    }
  }

  /** The identifiers of a list of records. */
  function Ids(records: seq<Record>): set<string>
  {
    set k | 0 <= k < |records| :: records[k].id
  }

  /** The dictionary built by storing, record after record, the window
      `[lo, hi)` of its sequence under its identifier. */
  function SeqsTable(records: seq<Record>, lo: int, hi: int): Dict
  {
    if |records| == 0 then []
    else
      var n := |records| - 1;
      Put(SeqsTable(records[..n], lo, hi), records[n].id, PySlice(records[n].residues, lo, hi))
  }

  /** No record after the `k`-th has its identifier. */
  predicate LastWithId(records: seq<Record>, k: nat)
    requires k < |records|
  {
    forall j :: k < j < |records| ==> records[j].id != records[k].id
  }

  /** The keys of the table are the identifiers of the records, each with
      exactly one entry. */
  lemma {:induction false} SeqsTableKeys(records: seq<Record>, lo: int, hi: int)
    ensures KeySet(SeqsTable(records, lo, hi)) == Ids(records)
    ensures DistinctKeys(SeqsTable(records, lo, hi))
  {
    if |records| > 0 {
      var n := |records| - 1;
      var front := records[..n];
      SeqsTableKeys(front, lo, hi);
      PutKeys(SeqsTable(front, lo, hi), records[n].id, PySlice(records[n].residues, lo, hi));
      PutDistinct(SeqsTable(front, lo, hi), records[n].id, PySlice(records[n].residues, lo, hi));
      IdsSnoc(records);
    }
  }

  /** The identifiers of the records are those of all but the last, and the
      last one's. */
  lemma IdsSnoc(records: seq<Record>)
    requires |records| > 0
    ensures Ids(records) == Ids(records[..|records| - 1]) + {records[|records| - 1].id}
  {
    var n := |records| - 1;
    var front := records[..n];
    forall x | x in Ids(records) ensures x in Ids(front) + {records[n].id} {
      var k :| 0 <= k < |records| && records[k].id == x;
      if k < n {
        assert front[k].id == x;
      }
    }
    forall x | x in Ids(front) ensures x in Ids(records) {
      var k :| 0 <= k < |front| && front[k].id == x;
      assert records[k].id == x;
    }
  }

  /** The value stored under an identifier is the window of the last record
      carrying it: a later record overwrites an earlier one. */
  lemma {:induction false} SeqsTableLast(records: seq<Record>, lo: int, hi: int, k: nat)
    requires k < |records| && LastWithId(records, k)
    ensures Lookup(SeqsTable(records, lo, hi), records[k].id) == Some(PySlice(records[k].residues, lo, hi))
  {
    var n := |records| - 1;
    var front := records[..n];
    PutLookup(SeqsTable(front, lo, hi), records[n].id, PySlice(records[n].residues, lo, hi), records[k].id);
    if k < n {
      assert records[n].id != records[k].id;
      assert front[k] == records[k];
      assert LastWithId(front, k);
      SeqsTableLast(front, lo, hi, k);
    }
  }

  /** Fills the dictionary of windowed sequences, one record at a time. */
  method GetSeqs(records: seq<Record>, minPos: int := MinPos, maxPos: int := MaxPos)
    returns (seqs: Dict)
    ensures seqs == SeqsTable(records, minPos, maxPos)
  {
    seqs := [];
    for i := 0 to |records|
      invariant seqs == SeqsTable(records[..i], minPos, maxPos)
    {
      assert records[..i + 1][..i] == records[..i];
      seqs := Put(seqs, records[i].id, PySlice(records[i].residues, minPos, maxPos));
    }
    assert records[..|records|] == records;
  }

  /** Every record with the columns `cols` filtered out of its sequence. */
  function StripColumns(records: seq<Record>, cols: set<int>): seq<Record>
  {
    seq(|records|, k requires 0 <= k < |records| =>
      records[k].(residues := Drop(records[k].residues, cols)))
  }

  /** Normalizing twice changes nothing the second time: once the
      reference's gap columns are gone, the reference has no gap column
      left to remove. */
  lemma StripIdempotent(records: seq<Record>, k: nat)
    requires k < |records|
    ensures var once := StripColumns(records, Elements(GapPositions(records[k].residues)));
      StripColumns(once, Elements(GapPositions(once[k].residues))) == once
  {
    var once := StripColumns(records, Elements(GapPositions(records[k].residues)));
    ReferenceGapFree(records[k].residues);
    assert Elements(GapPositions(once[k].residues)) == {};
    forall j | 0 <= j < |once| {
      DropNothing(once[j].residues);
    }
  }

  /** Removes the columns `positions` from the sequence of every record,
      record by record, in place. */
  method StripInsertions(aln: array<Record>, positions: seq<nat>)
    requires StrictlyIncreasing(positions)
    requires forall j, k :: 0 <= j < aln.Length && 0 <= k < |positions| ==>
      positions[k] < |aln[j].residues|
    modifies aln
    ensures aln[..] == StripColumns(old(aln[..]), Elements(positions))
    ensures forall j :: 0 <= j < aln.Length ==>
      |aln[j].residues| == |old(aln[j].residues)| - |positions|
  {
    for i := 0 to aln.Length
      invariant forall j :: 0 <= j < i ==>
        aln[j] == old(aln[j]).(residues := Drop(old(aln[j].residues), Elements(positions)))
      invariant forall j :: 0 <= j < i ==>
        |aln[j].residues| == |old(aln[j].residues)| - |positions|
      invariant forall j :: i <= j < aln.Length ==> aln[j] == old(aln[j])
    {
      var rec := aln[i];
      var shrunk := RemoveInsertions(rec.residues, positions);
      aln[i] := rec.(residues := shrunk);
    }
  }

  /** What normalization returns: the table of windowed sequences, and the
      reference after insertion removal (not windowed). */
  datatype Normalized = Normalized(seqs: Dict, reference: string)

  /** Normalizes the alignment in place. The reference is looked up by
      name; its gap columns, found on the unshrunk reference, are removed
      from every record; the reference is then checked to be gap-free, and
      every sequence is cut to the default window. */
  method ProcessConsensusSeqs(aln: array<Record>, patientZero: string)
    returns (res: Result<Normalized, Error>)
    requires EqualWidths(aln[..])
    modifies aln
    ensures res.Err? <==> FindRecord(old(aln[..]), patientZero).None?
    ensures res.Err? ==> res.error == ReferenceNotFound && aln[..] == old(aln[..])
    ensures res.Ok? ==>
      var k := FindRecord(old(aln[..]), patientZero).value;
      var positions := GapPositions(old(aln[k].residues));
      && aln[..] == StripColumns(old(aln[..]), Elements(positions))
      && FindRecord(aln[..], patientZero) == Some(k)
      && res.value.reference == aln[k].residues
      && Gap !in res.value.reference
      && (forall j :: 0 <= j < aln.Length ==>
            |aln[j].residues| == |old(aln[j].residues)| - |positions|)
      && res.value.seqs == SeqsTable(aln[..], MinPos, MaxPos)
  {
    var refSeq := GetSeq(aln[..], patientZero);
    if refSeq.None? {
      return Err(ReferenceNotFound);
    }
    ghost var before := aln[..];
    ghost var k := FindRecord(before, patientZero).value;
    var positions := GapPositions(refSeq.value);
    assert refSeq.value == before[k].residues;
    assert forall j :: 0 <= j < aln.Length ==> |aln[j].residues| == |before[k].residues| by {
      assert forall j :: 0 <= j < aln.Length ==> aln[j] == before[j];
    }
    StripInsertions(aln, positions);
    FindRecordByNames(aln[..], before, patientZero);
    var refAfter := GetSeq(aln[..], patientZero);
    assert refAfter == Some(Drop(before[k].residues, Elements(positions)));
    ReferenceGapFree(before[k].residues);
    // the sanity check of the source: the stripped reference has no gap left
    assert GapPositions(refAfter.value) == [];
    NoGapPositions(refAfter.value);
    var seqs := GetSeqs(aln[..]);
    res := Ok(Normalized(seqs, refAfter.value));
  }
}
