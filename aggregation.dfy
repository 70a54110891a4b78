/** The deletion aggregator: keep the runs longer than the threshold, key
    each by its coordinates and length, group the samples that share a key,
    and order the groups by how many samples share them. */
module Aggregation {
  import opened Common
  import opened Runs
  import opened Coords
  import opened Normalizer

  /** A retained deletion run of one sample: its key and its length. */
  datatype Deletion = Deletion(sample: string, coords: (int, int), len: nat)

  /** One row of the result table: a key, a length, and the samples that
      have a run with that key and length, in order of appearance. */
  datatype Cluster = Cluster(coords: (int, int), len: nat, samples: seq<string>)
  {
    /** The number of samples in the row. */
    function NumSamples(): nat
    {
      |samples|
    }
  }

  /** The deletion runs of every sample, sample after sample. */
  type RunTable = seq<(string, seq<seq<int>>)>

  /** Every run of the table is non-empty. */
  predicate NonEmptyRuns(rt: RunTable)
  {
    forall k, j :: 0 <= k < |rt| && 0 <= j < |rt[k].1| ==> |rt[k].1[j]| > 0
  }

  /** The column of deletion runs: each sample with the runs of its
      sequence. */
  function RunsColumn(table: Dict): (rt: RunTable)
    ensures NonEmptyRuns(rt)
  {
    seq(|table|, k requires 0 <= k < |table| => (table[k].0, FindDeletions(table[k].1)))
  }

  /** The retained runs of one sample, in order. */
  function SampleDeletions(sample: string, runs: seq<seq<int>>, minDelLen: int): seq<Deletion>
    requires forall j :: 0 <= j < |runs| ==> |runs[j]| > 0
  {
    if |runs| == 0 then []
    else
      (if |runs[0]| > minDelLen then [Deletion(sample, DeletionCoord(runs[0]), |runs[0]|)] else [])
      + SampleDeletions(sample, runs[1..], minDelLen)
  }

  /** The runs longer than `minDelLen` of every sample, sample after
      sample. */
  function Retained(rt: RunTable, minDelLen: int): seq<Deletion>
    requires NonEmptyRuns(rt)
  {
    if |rt| == 0 then []
    else
      var n := |rt| - 1;
      assert NonEmptyRuns(rt[..n]);
      assert forall j :: 0 <= j < |rt[n].1| ==> |rt[n].1[j]| > 0;
      Retained(rt[..n], minDelLen) + SampleDeletions(rt[n].0, rt[n].1, minDelLen)
  }

  /** `d` describes the `j`-th run of the `k`-th sample. */
  predicate RunOf(rt: RunTable, k: int, j: int, d: Deletion)
    requires NonEmptyRuns(rt)
  {
    && 0 <= k < |rt|
    && 0 <= j < |rt[k].1|
    && d == Deletion(rt[k].0, DeletionCoord(rt[k].1[j]), |rt[k].1[j]|)
  }

  /** The retained runs of one sample are its runs longer than the
      threshold. */
  lemma {:induction false} SampleDeletionsMembers(sample: string, runs: seq<seq<int>>, minDelLen: int, d: Deletion)
    requires forall j :: 0 <= j < |runs| ==> |runs[j]| > 0
    ensures d in SampleDeletions(sample, runs, minDelLen) <==>
      d.len > minDelLen &&
      exists j :: 0 <= j < |runs| && d == Deletion(sample, DeletionCoord(runs[j]), |runs[j]|)
  {
    if |runs| > 0 {
      SampleDeletionsMembers(sample, runs[1..], minDelLen, d);
      assert forall j :: 0 < j < |runs| ==> runs[1..][j - 1] == runs[j];
      if d in SampleDeletions(sample, runs[1..], minDelLen) {
        var j :| 0 <= j < |runs[1..]| && d == Deletion(sample, DeletionCoord(runs[1..][j]), |runs[1..][j]|);
        assert runs[1..][j] == runs[j + 1];
      }
    }
  }

  /** Only runs longer than the threshold are retained, and each describes a
      run of a sample. */
  lemma {:induction false} RetainedSound(rt: RunTable, minDelLen: int, d: Deletion)
    requires NonEmptyRuns(rt)
    requires d in Retained(rt, minDelLen)
    ensures d.len > minDelLen && exists k, j :: RunOf(rt, k, j, d)
  {
    var n := |rt| - 1;
    var front := rt[..n];
    assert NonEmptyRuns(front);
    assert forall j :: 0 <= j < |rt[n].1| ==> |rt[n].1[j]| > 0;
    SampleDeletionsMembers(rt[n].0, rt[n].1, minDelLen, d);
    if d in Retained(front, minDelLen) {
      RetainedSound(front, minDelLen, d);
      var k, j :| RunOf(front, k, j, d);
      assert front[k] == rt[k];
      assert RunOf(rt, k, j, d);
    } else {
      var j :| 0 <= j < |rt[n].1| && d == Deletion(rt[n].0, DeletionCoord(rt[n].1[j]), |rt[n].1[j]|);
      assert RunOf(rt, n, j, d);
    }
  }

  /** Every run longer than the threshold is retained. */
  lemma {:induction false} RetainedComplete(rt: RunTable, minDelLen: int, k: nat, j: nat, d: Deletion)
    requires NonEmptyRuns(rt)
    requires RunOf(rt, k, j, d) && d.len > minDelLen
    ensures d in Retained(rt, minDelLen)
  {
    var n := |rt| - 1;
    var front := rt[..n];
    assert NonEmptyRuns(front);
    assert forall j :: 0 <= j < |rt[n].1| ==> |rt[n].1[j]| > 0;
    if k < n {
      assert front[k] == rt[k];
      assert RunOf(front, k, j, d);
      RetainedComplete(front, minDelLen, k, j, d);
    } else {
      SampleDeletionsMembers(rt[n].0, rt[n].1, minDelLen, d);
    }
  }

  /** The grouping key of a row. */
  function Key(c: Cluster): ((int, int), nat)
  {
    (c.coords, c.len)
  }

  /** `d` is recorded in the rows: some row has its key and its sample. */
  predicate InRows(gs: seq<Cluster>, d: Deletion)
  {
    exists c :: c in gs && c.coords == d.coords && c.len == d.len && d.sample in c.samples
  }

  /** No two rows have the same key. */
  predicate UniqueKeys(gs: seq<Cluster>)
  {
    forall i, j :: 0 <= i < j < |gs| ==> Key(gs[i]) != Key(gs[j])
  }

  /** Every row has at least one sample and no sample twice. */
  predicate ValidRows(gs: seq<Cluster>)
  {
    forall i :: 0 <= i < |gs| ==> |gs[i].samples| > 0 && Distinct(gs[i].samples)
  }

  /** Adds one retained run to the rows: the sample joins the row with its
      key (once), or a new row is opened at the end. */
  function AddDeletion(gs: seq<Cluster>, d: Deletion): seq<Cluster>
  {
    if |gs| == 0 then [Cluster(d.coords, d.len, [d.sample])]
    else if gs[0].coords == d.coords && gs[0].len == d.len then
      [gs[0].(samples := if d.sample in gs[0].samples then gs[0].samples else gs[0].samples + [d.sample])]
      + gs[1..]
    else [gs[0]] + AddDeletion(gs[1..], d)
  }

  /** The rows after adding `e` record what they recorded before, and `e`. */
  lemma {:induction false} AddDeletionRecords(gs: seq<Cluster>, e: Deletion, d: Deletion)
    ensures InRows(AddDeletion(gs, e), d) <==> InRows(gs, d) || d == e
  {
    var r := AddDeletion(gs, e);
    if |gs| == 0 {
      assert r[0] in r;
    } else if gs[0].coords == e.coords && gs[0].len == e.len {
      assert r[0] in r;
      assert forall c :: c in gs ==> c == gs[0] || c in gs[1..];
      assert forall c :: c in r ==> c == r[0] || c in gs[1..];
      if InRows(gs, d) {
        var c :| c in gs && c.coords == d.coords && c.len == d.len && d.sample in c.samples;
        if c == gs[0] {
          assert d.sample in r[0].samples;
        }
      }
    } else {
      AddDeletionRecords(gs[1..], e, d);
      var rest := AddDeletion(gs[1..], e);
      assert r == [gs[0]] + rest;
      assert forall c :: c in gs ==> c == gs[0] || c in gs[1..];
      assert forall c :: c in r ==> c == gs[0] || c in rest;
    }
  }

  /** The keys of some rows. */
  function Keys(gs: seq<Cluster>): set<((int, int), nat)>
  {
    set c | c in gs :: Key(c)
  }

  /** The keys of rows with one more row in front. */
  lemma KeysCons(c: Cluster, gs: seq<Cluster>)
    ensures Keys([c] + gs) == {Key(c)} + Keys(gs)
  {
    assert forall x :: x in [c] + gs <==> x == c || x in gs;
  }

  /** Adding a run adds its key to the keys and no other. */
  lemma {:induction false} AddDeletionKeys(gs: seq<Cluster>, e: Deletion)
    ensures Keys(AddDeletion(gs, e)) == Keys(gs) + {(e.coords, e.len)}
  {
    if |gs| == 0 {
      KeysCons(Cluster(e.coords, e.len, [e.sample]), []);
    } else {
      assert gs == [gs[0]] + gs[1..];
      KeysCons(gs[0], gs[1..]);
      if gs[0].coords == e.coords && gs[0].len == e.len {
        var c := AddDeletion(gs, e)[0];
        assert AddDeletion(gs, e) == [c] + gs[1..];
        KeysCons(c, gs[1..]);
      } else {
        AddDeletionKeys(gs[1..], e);
        KeysCons(gs[0], AddDeletion(gs[1..], e));
      }
    }
  }

  /** Adding a run never creates a second row for a key. */
  lemma {:induction false} AddDeletionUnique(gs: seq<Cluster>, e: Deletion)
    requires UniqueKeys(gs)
    ensures UniqueKeys(AddDeletion(gs, e))
  {
    var r := AddDeletion(gs, e);
    if |gs| == 0 {
    } else if gs[0].coords == e.coords && gs[0].len == e.len {
      assert forall i :: 0 < i < |r| ==> r[i] == gs[i];
      assert Key(r[0]) == Key(gs[0]);
    } else {
      AddDeletionUnique(gs[1..], e);
      AddDeletionKeys(gs[1..], e);
      var rest := AddDeletion(gs[1..], e);
      forall i | 0 <= i < |rest| ensures Key(rest[i]) != Key(gs[0]) {
        assert rest[i] in rest;
        assert Key(rest[i]) in Keys(rest);
        if Key(rest[i]) != (e.coords, e.len) {
          var c :| c in gs[1..] && Key(c) == Key(rest[i]);
          var m :| 0 <= m < |gs[1..]| && gs[1..][m] == c;
          assert gs[m + 1] == c;
        }
      }
      assert forall i :: 0 < i < |r| ==> r[i] == rest[i - 1];
    }
  }

  /** Adding a run keeps every row non-empty and free of repeated samples. */
  lemma {:induction false} AddDeletionValid(gs: seq<Cluster>, e: Deletion)
    requires ValidRows(gs)
    ensures ValidRows(AddDeletion(gs, e))
  {
    var r := AddDeletion(gs, e);
    if |gs| == 0 {
    } else if gs[0].coords == e.coords && gs[0].len == e.len {
      assert forall i :: 0 < i < |r| ==> r[i] == gs[i];
      assert |gs[0].samples| > 0 && Distinct(gs[0].samples);
    } else {
      AddDeletionValid(gs[1..], e);
      var rest := AddDeletion(gs[1..], e);
      assert forall i :: 0 < i < |r| ==> r[i] == rest[i - 1];
    }
  }

  /** The rows built from the retained runs, in order of first appearance of
      each key. */
  function GroupDeletions(ds: seq<Deletion>): seq<Cluster>
  {
    if |ds| == 0 then []
    else AddDeletion(GroupDeletions(ds[..|ds| - 1]), ds[|ds| - 1])
  }

  /** The rows record exactly the retained runs; keys are unique, and every
      row has at least one sample and no sample twice. */
  lemma {:induction false} GroupDeletionsSpec(ds: seq<Deletion>)
    ensures forall d :: InRows(GroupDeletions(ds), d) <==> d in ds
    ensures UniqueKeys(GroupDeletions(ds))
    ensures ValidRows(GroupDeletions(ds))
  {
    if |ds| > 0 {
      var n := |ds| - 1;
      GroupDeletionsSpec(ds[..n]);
      var gs := GroupDeletions(ds[..n]);
      AddDeletionUnique(gs, ds[n]);
      AddDeletionValid(gs, ds[n]);
      forall d ensures InRows(GroupDeletions(ds), d) <==> d in ds {
        AddDeletionRecords(gs, ds[n], d);
        assert ds == ds[..n] + [ds[n]];
      }
    }
  }

  /** Inserts a row before the first row with at least as many samples. */
  function InsertByCount(x: Cluster, s: seq<Cluster>): seq<Cluster>
  {
    if |s| == 0 || x.NumSamples() <= s[0].NumSamples() then [x] + s
    else [s[0]] + InsertByCount(x, s[1..])
  }

  /** The rows in non-decreasing order of their number of samples, with
      rows of equal count in their original order. */
  function SortByCount(cs: seq<Cluster>): seq<Cluster>
  {
    if |cs| == 0 then [] else InsertByCount(cs[0], SortByCount(cs[1..]))
  }

  /** Rows in non-decreasing order of their number of samples. */
  predicate SortedByCount(s: seq<Cluster>)
  {
    forall i, j :: 0 <= i < j < |s| ==> s[i].NumSamples() <= s[j].NumSamples()
  }

  /** Insertion keeps the rows and adds `x`. */
  lemma {:induction false} InsertByCountPerm(x: Cluster, s: seq<Cluster>)
    ensures multiset(InsertByCount(x, s)) == multiset(s) + multiset{x}
  {
    if |s| > 0 && x.NumSamples() > s[0].NumSamples() {
      InsertByCountPerm(x, s[1..]);
      assert s == [s[0]] + s[1..];
    }
  }

  /** Insertion into ordered rows keeps them in order. */
  lemma {:induction false} InsertByCountSorted(x: Cluster, s: seq<Cluster>)
    requires SortedByCount(s)
    ensures SortedByCount(InsertByCount(x, s))
  {
    if |s| > 0 && x.NumSamples() > s[0].NumSamples() {
      assert SortedByCount(s[1..]);
      InsertByCountSorted(x, s[1..]);
      InsertByCountPerm(x, s[1..]);
      var rest := InsertByCount(x, s[1..]);
      forall i | 0 <= i < |rest| ensures s[0].NumSamples() <= rest[i].NumSamples() {
        assert rest[i] in multiset(rest);
        if rest[i] != x {
          var m :| 0 <= m < |s[1..]| && s[1..][m] == rest[i];
          assert s[m + 1] == rest[i];
        }
      }
      var r := InsertByCount(x, s);
      assert forall i :: 0 < i < |r| ==> r[i] == rest[i - 1];
    }
  }

  /** Sorting keeps the rows and puts them in order. */
  lemma {:induction false} SortByCountSpec(cs: seq<Cluster>)
    ensures multiset(SortByCount(cs)) == multiset(cs)
    ensures SortedByCount(SortByCount(cs))
  {
    if |cs| > 0 {
      SortByCountSpec(cs[1..]);
      InsertByCountPerm(cs[0], SortByCount(cs[1..]));
      InsertByCountSorted(cs[0], SortByCount(cs[1..]));
      assert cs == [cs[0]] + cs[1..];
    }
  }

  /** Sorting keeps the keys unique. */
  lemma {:induction false} SortByCountUnique(cs: seq<Cluster>)
    requires UniqueKeys(cs)
    ensures UniqueKeys(SortByCount(cs))
  {
    if |cs| > 0 {
      assert UniqueKeys(cs[1..]);
      SortByCountUnique(cs[1..]);
      SortByCountSpec(cs[1..]);
      var s := SortByCount(cs[1..]);
      forall c | c in s ensures Key(c) != Key(cs[0]) {
        assert c in multiset(cs[1..]);
        var m :| 0 <= m < |cs[1..]| && cs[1..][m] == c;
        assert cs[m + 1] == c;
      }
      InsertUnique(cs[0], s);
    }
  }

  /** Inserting a row whose key is new keeps the keys unique. */
  lemma {:induction false} InsertUnique(x: Cluster, s: seq<Cluster>)
    requires UniqueKeys(s)
    requires forall c :: c in s ==> Key(c) != Key(x)
    ensures UniqueKeys(InsertByCount(x, s))
  {
    var r := InsertByCount(x, s);
    if |s| == 0 || x.NumSamples() <= s[0].NumSamples() {
      assert forall i :: 0 < i < |r| ==> r[i] == s[i - 1] && r[i] in s;
    } else {
      assert UniqueKeys(s[1..]);
      InsertUnique(x, s[1..]);
      var rest := InsertByCount(x, s[1..]);
      InsertByCountPerm(x, s[1..]);
      forall i | 0 <= i < |rest| ensures Key(rest[i]) != Key(s[0]) {
        assert rest[i] in multiset(rest);
        if rest[i] != x {
          var m :| 0 <= m < |s[1..]| && s[1..][m] == rest[i];
          assert s[m + 1] == rest[i];
        } else {
          assert s[0] in s;
        }
      }
      assert forall i :: 0 < i < |r| ==> r[i] == rest[i - 1];
    }
  }

  /** The result table of the deletion analysis: the rows of all runs of
      the samples longer than `minDelLen`, grouped by key and length, in
      non-decreasing order of sample count. */
  function IdentifyDeletionTable(table: Dict, minDelLen: int): seq<Cluster>
  {
    SortByCount(GroupDeletions(Retained(RunsColumn(table), minDelLen)))
  }

  /** Sample `id` of the table has a deletion run with key `coords` and
      length `len`. */
  predicate HasRun(table: Dict, id: string, coords: (int, int), len: nat)
  {
    exists k, j :: 0 <= k < |table| && table[k].0 == id &&
      0 <= j < |FindDeletions(table[k].1)| &&
      DeletionCoord(FindDeletions(table[k].1)[j]) == coords &&
      |FindDeletions(table[k].1)[j]| == len
  }

  /** A run of the run column is a run of a sample of the table. */
  lemma RunOfHasRun(table: Dict, d: Deletion)
    ensures (exists k, j :: RunOf(RunsColumn(table), k, j, d)) <==> HasRun(table, d.sample, d.coords, d.len)
  {
    var rt := RunsColumn(table);
    if exists k, j :: RunOf(rt, k, j, d) {
      var k, j :| RunOf(rt, k, j, d);
      assert rt[k] == (table[k].0, FindDeletions(table[k].1));
    }
    if HasRun(table, d.sample, d.coords, d.len) {
      var k, j :| 0 <= k < |table| && table[k].0 == d.sample &&
        0 <= j < |FindDeletions(table[k].1)| &&
        DeletionCoord(FindDeletions(table[k].1)[j]) == d.coords &&
        |FindDeletions(table[k].1)[j]| == d.len;
      assert rt[k] == (table[k].0, FindDeletions(table[k].1));
      assert RunOf(rt, k, j, d);
    }
  }

  /** The rows of the table are in non-decreasing order of sample count,
      and no two rows share a key and a length. */
  lemma TableOrderAndKeys(table: Dict, minDelLen: int)
    ensures SortedByCount(IdentifyDeletionTable(table, minDelLen))
    ensures UniqueKeys(IdentifyDeletionTable(table, minDelLen))
  {
    var gs := GroupDeletions(Retained(RunsColumn(table), minDelLen));
    GroupDeletionsSpec(Retained(RunsColumn(table), minDelLen));
    SortByCountSpec(gs);
    SortByCountUnique(gs);
  }

  /** A sample of a row built from the retained runs has a run with the
      row's key and length, longer than the threshold. */
  lemma GroupRowSound(rt: RunTable, minDelLen: int, c: Cluster, id: string)
    requires NonEmptyRuns(rt)
    requires c in GroupDeletions(Retained(rt, minDelLen))
    requires id in c.samples
    ensures c.len > minDelLen
    ensures exists k, j :: RunOf(rt, k, j, Deletion(id, c.coords, c.len))
  {
    var ds := Retained(rt, minDelLen);
    var d := Deletion(id, c.coords, c.len);
    GroupDeletionsSpec(ds);
    assert InRows(GroupDeletions(ds), d);
    RetainedSound(rt, minDelLen, d);
  }

  /** A sample with a run of a row's key and length is in that row. */
  lemma GroupRowComplete(rt: RunTable, minDelLen: int, c: Cluster, k: nat, j: nat, id: string)
    requires NonEmptyRuns(rt)
    requires c in GroupDeletions(Retained(rt, minDelLen)) && c.len > minDelLen
    requires RunOf(rt, k, j, Deletion(id, c.coords, c.len))
    ensures id in c.samples
  {
    var ds := Retained(rt, minDelLen);
    var gs := GroupDeletions(ds);
    var d := Deletion(id, c.coords, c.len);
    GroupDeletionsSpec(ds);
    RetainedComplete(rt, minDelLen, k, j, d);
    assert InRows(gs, d);
    var c' :| c' in gs && c'.coords == d.coords && c'.len == d.len && d.sample in c'.samples;
    var i :| 0 <= i < |gs| && gs[i] == c;
    var i' :| 0 <= i' < |gs| && gs[i'] == c';
    assert Key(gs[i]) == Key(gs[i']);
  }

  /** Every row built from the retained runs: its length is above the
      threshold, it has at least one sample and no sample twice, and a sample
      is in it exactly when that sample has a run with its key and length. */
  lemma GroupRow(rt: RunTable, minDelLen: int, c: Cluster)
    requires NonEmptyRuns(rt)
    requires c in GroupDeletions(Retained(rt, minDelLen))
    ensures c.len > minDelLen
    ensures |c.samples| > 0 && Distinct(c.samples)
    ensures forall id :: id in c.samples <==>
      exists k, j :: RunOf(rt, k, j, Deletion(id, c.coords, c.len))
  {
    GroupDeletionsSpec(Retained(rt, minDelLen));
    assert ValidRows(GroupDeletions(Retained(rt, minDelLen)));
    var gs := GroupDeletions(Retained(rt, minDelLen));
    var i :| 0 <= i < |gs| && gs[i] == c;
    assert |c.samples| > 0 && Distinct(c.samples);
    GroupRowSound(rt, minDelLen, c, c.samples[0]);
    forall id ensures id in c.samples <==> exists k, j :: RunOf(rt, k, j, Deletion(id, c.coords, c.len)) {
      if id in c.samples {
        GroupRowSound(rt, minDelLen, c, id);
      }
      if exists k, j :: RunOf(rt, k, j, Deletion(id, c.coords, c.len)) {
        var k, j :| RunOf(rt, k, j, Deletion(id, c.coords, c.len));
        GroupRowComplete(rt, minDelLen, c, k, j, id);
      }
    }
  }

  /** Every row of the table: its runs are longer than the threshold, its
      key spans exactly its length, it has at least one sample and counts
      each sample once, and a sample is in it exactly when that sample has a
      run with its key and length. */
  lemma TableRow(table: Dict, minDelLen: int, c: Cluster)
    requires c in IdentifyDeletionTable(table, minDelLen)
    ensures c.len > minDelLen
    ensures c.coords.1 - c.coords.0 + 1 == c.len
    ensures c.NumSamples() >= 1 && c.NumSamples() == |set id | id in c.samples|
    ensures forall id :: id in c.samples <==> HasRun(table, id, c.coords, c.len)
  {
    var rt := RunsColumn(table);
    var gs := GroupDeletions(Retained(rt, minDelLen));
    SortByCountSpec(gs);
    assert c in multiset(gs);
    GroupRow(rt, minDelLen, c);
    DistinctCardinality(c.samples);
    // the first sample of the row witnesses that the key spans the length
    var k, j :| RunOf(rt, k, j, Deletion(c.samples[0], c.coords, c.len));
    assert rt[k] == (table[k].0, FindDeletions(table[k].1));
    CoordOfConsecutiveRun(rt[k].1[j]);
    forall id ensures id in c.samples <==> HasRun(table, id, c.coords, c.len) {
      RunOfHasRun(table, Deletion(id, c.coords, c.len));
    }
  }

  /** Every run of a sample longer than the threshold is reported: some row
      has its key, its length and the sample. */
  lemma TableComplete(table: Dict, minDelLen: int, k: nat, j: nat)
    requires k < |table| && j < |FindDeletions(table[k].1)|
    requires |FindDeletions(table[k].1)[j]| > minDelLen
    ensures var run := FindDeletions(table[k].1)[j];
      exists c :: c in IdentifyDeletionTable(table, minDelLen) &&
        c.coords == DeletionCoord(run) && c.len == |run| && table[k].0 in c.samples
  {
    var rt := RunsColumn(table);
    var run := FindDeletions(table[k].1)[j];
    var d := Deletion(table[k].0, DeletionCoord(run), |run|);
    assert rt[k] == (table[k].0, FindDeletions(table[k].1));
    assert RunOf(rt, k, j, d);
    RetainedComplete(rt, minDelLen, k, j, d);
    var ds := Retained(rt, minDelLen);
    var gs := GroupDeletions(ds);
    GroupDeletionsSpec(ds);
    SortByCountSpec(gs);
    assert InRows(gs, d);
    var c :| c in gs && c.coords == d.coords && c.len == d.len && d.sample in c.samples;
    assert c in multiset(SortByCount(gs));
  }
}
