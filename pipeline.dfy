/** The whole deletion analysis of an alignment that has already been read:
    normalize the coordinates, then find, filter and group the deletion
    runs. */
module Pipeline {
  import opened Common
  import opened Gaps
  import opened Normalizer
  import opened Aggregation

  /** Normalizes the alignment in place against the reference `patientZero`
      and returns the table of deletions longer than `minDelLen` that the
      samples share. The table is not shifted back to genome coordinates:
      its keys are positions inside the coding window. */
  method IdentifyDeletions(aln: array<Record>, patientZero: string, minDelLen: int := 2)
    returns (res: Result<seq<Cluster>, Error>)
    requires EqualWidths(aln[..])
    modifies aln
    ensures res.Err? <==> FindRecord(old(aln[..]), patientZero).None?
    ensures res.Err? ==> res.error == ReferenceNotFound && aln[..] == old(aln[..])
    ensures res.Ok? ==>
      var k := FindRecord(old(aln[..]), patientZero).value;
      && aln[..] == StripColumns(old(aln[..]), Elements(GapPositions(old(aln[k].residues))))
      && res.value == IdentifyDeletionTable(SeqsTable(aln[..], MinPos, MaxPos), minDelLen)
  {
    var processed := ProcessConsensusSeqs(aln, patientZero);
    match processed
    case Err(e) =>
      return Err(e);
    case Ok(normalized) =>
      return Ok(IdentifyDeletionTable(normalized.seqs, minDelLen));
  }
}
