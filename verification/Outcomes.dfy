/** Typed outcomes, error codes and the checked 64-bit arithmetic every size computation uses. */
module Outcomes {
  type Byte = bv8
  type Bytes = seq<Byte>

  const TWO_TO_16: int := 0x1_0000
  const TWO_TO_32: int := 0x1_0000_0000
  const TWO_TO_64: int := 0x1_0000_0000_0000_0000

  type U8 = n: int | 0 <= n < 0x100
  type U16 = n: int | 0 <= n < 0x1_0000
  type U32 = n: int | 0 <= n < 0x1_0000_0000
  type U64 = n: int | 0 <= n < 0x1_0000_0000_0000_0000

  /** The bytes of a text in ASCII. */
  function Ascii(text: string): (b: Bytes)
    requires forall i | 0 <= i < |text| :: text[i] < 128 as char
    ensures |b| == |text|
  {
    seq(|text|, i requires 0 <= i < |text| => (text[i] as int) as bv8)
  }

  /** The error codes a caller can tell apart; messages are not modelled. */
  datatype ErrorCode =
    | InvalidConfiguration
    | InvalidState
    | InvalidResourceLimit
    | InvalidSchema
    | InvalidBlock
    | IoReadFailed
    | IoWriteFailed
    | IoNoProgress
    | UnexpectedEnd
    | ChecksumMismatch
    | InvalidRecord
    | InvalidMagic
    | UnsupportedFormatVersion
    | UnsupportedFeature
    | LimitExceeded
    | ArithmeticOverflow
    | OperationCancelled
    | PluginContractViolation
    | InvariantViolation

  datatype Result<+T> = Ok(value: T) | Err(error: ErrorCode) {
    predicate IsFailure() {
      Err?
    }

    function PropagateFailure<U>(): Result<U>
      requires Err?
    {
      Err(error)
    }

    function Extract(): T
      requires Ok?
    {
      value
    }
  }

  datatype Unit = Unit

  type Status = Result<Unit>

  datatype Option<+T> = None | Some(value: T)

  /** What a checked sum beyond its limit reports. */
  function Excess(total: nat): ErrorCode {
    if total >= TWO_TO_64 then ArithmeticOverflow else LimitExceeded
  }

  /** Unsigned 64-bit addition that reports overflow instead of wrapping. */
  function CheckedAdd(left: U64, right: U64): (r: Result<U64>)
    ensures r.Ok? <==> left + right < TWO_TO_64
    ensures r.Ok? ==> r.value == left + right
    ensures r.Err? ==> r.error == ArithmeticOverflow
  {
    if right > TWO_TO_64 - 1 - left then Err(ArithmeticOverflow) else Ok(left + right)
  }

  lemma ProductFits(left: nat, right: nat, bound: nat)
    requires left != 0
    ensures right <= bound / left <==> left * right <= bound
  {
    var quotient, rest := bound / left, bound % left;
    assert bound == left * quotient + rest;
    if right <= quotient {
      assert left * right <= left * quotient;
    } else {
      assert left * right >= left * (quotient + 1);
    }
  }

  /** Unsigned 64-bit multiplication that reports overflow; the guard is a division, not a wider product. */
  function CheckedMultiply(left: U64, right: U64): (r: Result<U64>)
    ensures r.Ok? <==> left * right < TWO_TO_64
    ensures r.Ok? ==> r.value == left * right
    ensures r.Err? ==> r.error == ArithmeticOverflow
  {
    if left != 0 then
      ProductFits(left, right, TWO_TO_64 - 1);
      if right > (TWO_TO_64 - 1) / left then Err(ArithmeticOverflow) else Ok(left * right)
    else
      Ok(0)
  }
}
