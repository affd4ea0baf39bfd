/** Record disposition: which verified records a reader takes, in which order. */
module RecordSequences {
  import opened Outcomes
  import opened RecordEnvelopes

  datatype Disposition = Process | Skip

  /** file_header, schema, data_block, block_index, file_footer and user_metadata. */
  predicate IsKnownRecordType(recordType: Byte) {
    match recordType
    case 0x01 => true
    case 0x02 => true
    case 0x03 => true
    case 0x04 => true
    case 0x05 => true
    case 0x06 => true
    case _ => false
  }

  function Accepted(expected: U64, record: VerifiedRecord): Result<Disposition> {
    var e := record.envelope;
    if e.sequence != expected then Err(InvalidRecord)
    else if !IsKnownRecordType(e.recordType) && e.Mandatory() then Err(UnsupportedFeature)
    else
      var _ :- CheckedAdd(expected, 1);
      Ok(if IsKnownRecordType(e.recordType) then Process else Skip)
  }

  class RecordSequenceTracker {
    var expectedSequence: U64

    constructor ()
      ensures expectedSequence == 0
    {
      expectedSequence := 0;
    }

    /** Acceptance advances the expected number by one; a rejection leaves it alone. */
    method Accept(record: VerifiedRecord) returns (r: Result<Disposition>)
      modifies this
      ensures r == Accepted(old(expectedSequence), record)
      ensures expectedSequence == old(expectedSequence) + (if r.Ok? then 1 else 0)
    {
      var e := record.envelope;
      if e.sequence != expectedSequence {
        return Err(InvalidRecord);
      }
      if !IsKnownRecordType(e.recordType) && e.Mandatory() {
        return Err(UnsupportedFeature);
      }
      expectedSequence :- CheckedAdd(expectedSequence, 1);
      return Ok(if IsKnownRecordType(e.recordType) then Process else Skip);
    }
  }

  // ---------- whole runs ----------

  /** A tracker after a run: the records it took, oldest first, and the number it expects next. */
  datatype Progress = Progress(taken: seq<VerifiedRecord>, expected: int)

  /** What is left of a run after offering the records one by one to a new tracker. */
  function Offer(records: seq<VerifiedRecord>): (p: Progress)
    ensures 0 <= p.expected < TWO_TO_64
    decreases |records|
  {
    if |records| == 0 then Progress([], 0)
    else
      var before := Offer(records[..|records| - 1]);
      var record := records[|records| - 1];
      if Accepted(before.expected, record).Ok? then Progress(before.taken + [record], before.expected + 1) else before
  }

  /** Offering the records to the tracker object gives the run's progress. */
  method OfferAll(records: seq<VerifiedRecord>) returns (tracker: RecordSequenceTracker, taken: seq<VerifiedRecord>)
    ensures fresh(tracker)
    ensures Offer(records) == Progress(taken, tracker.expectedSequence)
  {
    tracker := new RecordSequenceTracker();
    taken := [];
    for i := 0 to |records|
      invariant fresh(tracker)
      invariant Offer(records[..i]) == Progress(taken, tracker.expectedSequence)
    {
      assert records[..i + 1][..i] == records[..i];
      var r := tracker.Accept(records[i]);
      if r.Ok? {
        taken := taken + [records[i]];
      }
    }
    assert records[..|records|] == records;
  }

  predicate Takeable(record: VerifiedRecord) {
    IsKnownRecordType(record.envelope.recordType) || !record.envelope.Mandatory()
  }

  /** Whatever is offered, in any order and with repeats, the records taken are numbered 0, 1, 2, ... without a gap. */
  lemma {:induction false} TakenInSequence(records: seq<VerifiedRecord>)
    ensures var p := Offer(records);
            && |p.taken| == p.expected
            && forall k | 0 <= k < |p.taken| :: p.taken[k].envelope.sequence == k && Takeable(p.taken[k])
    decreases |records|
  {
    if |records| > 0 {
      TakenInSequence(records[..|records| - 1]);
    }
  }

  /** `indices` picks `chosen` out of `records` in order. */
  ghost predicate Picks(records: seq<VerifiedRecord>, chosen: seq<VerifiedRecord>, indices: seq<nat>) {
    && |indices| == |chosen|
    && (forall k | 0 <= k < |indices| :: indices[k] < |records| && records[indices[k]] == chosen[k])
    && (forall j, k | 0 <= j < k < |indices| :: indices[j] < indices[k])
  }

  /** The records taken are a subsequence of the records offered. */
  lemma {:induction false} TakenInOfferedOrder(records: seq<VerifiedRecord>) returns (indices: seq<nat>)
    ensures Picks(records, Offer(records).taken, indices)
    decreases |records|
  {
    if |records| == 0 {
      indices := [];
    } else {
      var n := |records| - 1;
      indices := TakenInOfferedOrder(records[..n]);
      if Accepted(Offer(records[..n]).expected, records[n]).Ok? {
        indices := indices + [n];
      }
    }
  }

  /**
   * What the tracker answers, by the published type codes 1 to 6 and flag bit 0: a record that carries
   * the expected number is processed when its type is known, skipped when it is unknown and optional, and
   * refused when it is unknown and mandatory; the last representable number is never accepted.
   */
  lemma AcceptedExactly(expected: U64, record: VerifiedRecord)
    ensures var e, r := record.envelope, Accepted(expected, record);
            var known, mandatory := 0x01 <= e.recordType <= 0x06, e.flags & 0x01 == 0x01;
            && (r == Err(InvalidRecord) <==> e.sequence != expected)
            && (r == Err(UnsupportedFeature) <==> e.sequence == expected && !known && mandatory)
            && (r == Err(ArithmeticOverflow) <==>
                  e.sequence == expected && (known || !mandatory) && expected == 0xffff_ffff_ffff_ffff)
            && (r == Ok(Process) <==> e.sequence == expected && known && expected < 0xffff_ffff_ffff_ffff)
            && (r == Ok(Skip) <==>
                  e.sequence == expected && !known && !mandatory && expected < 0xffff_ffff_ffff_ffff)
  {
    KnownTypes(record.envelope.recordType);
    FlagBits(record.envelope);
  }

  lemma KnownTypes(recordType: Byte)
    ensures IsKnownRecordType(recordType) <==> 0x01 <= recordType <= 0x06
  {
  }

  /** A run takes everything it can: after any prefix, the next record is taken if it fits. */
  lemma NothingMissed(records: seq<VerifiedRecord>, record: VerifiedRecord)
    ensures var before, after := Offer(records), Offer(records + [record]);
            if record.envelope.sequence == before.expected && Takeable(record) && before.expected < TWO_TO_64 - 1
            then after == Progress(before.taken + [record], before.expected + 1)
            else after == before
  {
    assert (records + [record])[..|records|] == records;
    AcceptedExactly(Offer(records).expected, record);
  }
}
