/** The configured limits every reader and builder is given. */
module Limits {
  import opened Outcomes

  datatype ResourceLimits = ResourceLimits(
    maximumResidentBytes: U64,
    maximumBlockRows: U64,
    maximumDecodedBlockBytes: U64,
    maximumRecordBytes: U64,
    maximumMetadataBytes: U64,
    maximumFields: U32,
    maximumEncodingDepth: U32,
    maximumWorkers: U32,
    maximumQueuedBlocks: U32)

  /** Zero never means unlimited, and related limits nest. */
  predicate Consistent(limits: ResourceLimits) {
    && 0 < limits.maximumBlockRows && 0 < limits.maximumDecodedBlockBytes <= limits.maximumResidentBytes
    && 0 < limits.maximumMetadataBytes <= limits.maximumRecordBytes <= limits.maximumResidentBytes
    && 0 < limits.maximumFields && 0 < limits.maximumEncodingDepth
    && 0 < limits.maximumWorkers && 0 < limits.maximumQueuedBlocks
  }

  /** Limits are consistent exactly when all nine are positive and the byte limits nest. */
  lemma LimitRules(l: ResourceLimits)
    ensures Consistent(l) <==>
            && l.maximumResidentBytes > 0 && l.maximumBlockRows > 0 && l.maximumDecodedBlockBytes > 0
            && l.maximumRecordBytes > 0 && l.maximumMetadataBytes > 0 && l.maximumFields > 0
            && l.maximumEncodingDepth > 0 && l.maximumWorkers > 0 && l.maximumQueuedBlocks > 0
            && l.maximumDecodedBlockBytes <= l.maximumResidentBytes
            && l.maximumMetadataBytes <= l.maximumRecordBytes <= l.maximumResidentBytes
  {
  }

  method ValidateResourceLimits(limits: ResourceLimits) returns (r: Status)
    ensures r == if Consistent(limits) then Ok(Unit) else Err(InvalidResourceLimit)
  {
    var values: seq<U64> := [
      limits.maximumResidentBytes, limits.maximumBlockRows, limits.maximumDecodedBlockBytes,
      limits.maximumRecordBytes, limits.maximumMetadataBytes, limits.maximumFields,
      limits.maximumEncodingDepth, limits.maximumWorkers, limits.maximumQueuedBlocks];
    for i := 0 to |values|
      invariant forall k | 0 <= k < i :: values[k] != 0
    {
      if values[i] == 0 {
        return Err(InvalidResourceLimit);
      }
    }
    assert values[0] != 0 && values[1] != 0 && values[2] != 0 && values[3] != 0 && values[4] != 0;
    assert values[5] != 0 && values[6] != 0 && values[7] != 0 && values[8] != 0;
    if limits.maximumDecodedBlockBytes > limits.maximumResidentBytes
      || limits.maximumRecordBytes > limits.maximumResidentBytes
      || limits.maximumMetadataBytes > limits.maximumRecordBytes
    {
      return Err(InvalidResourceLimit);
    }
    return Ok(Unit);
  }
}
