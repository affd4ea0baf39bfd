/** Logical column types and the parameters each admits. */
module LogicalTypes {
  import opened Outcomes
  import opened Endian

  type I16 = n: int | -0x8000 <= n < 0x8000

  // Enumerator values, in declaration order.
  const BOOLEAN: U8 := 0
  const INT8: U8 := 1
  const INT16: U8 := 2
  const INT32: U8 := 3
  const INT64: U8 := 4
  const UINT8: U8 := 5
  const UINT16: U8 := 6
  const UINT32: U8 := 7
  const UINT64: U8 := 8
  const FLOAT32: U8 := 9
  const FLOAT64: U8 := 10
  const DECIMAL: U8 := 11
  const DATE: U8 := 12
  const TIME: U8 := 13
  const TIMESTAMP: U8 := 14
  const DURATION: U8 := 15
  const STRING: U8 := 16
  const BINARY: U8 := 17
  const FIXED_BINARY: U8 := 18
  const UUID: U8 := 19

  const LAST_TIME_UNIT: U8 := 3
  const LAST_TIMEZONE_MODE: U8 := 1
  const STRICT: U8 := 0
  const TRUSTED: U8 := 1

  /** The alternatives in their variant order; enumerators are kept as raw codes so that stray values can be refused. */
  datatype Parameters =
    | NoParameters
    | DecimalParameters(precision: U8, scale: I16)
    | TimeParameters(unit: U8)
    | TimestampParameters(timestampUnit: U8, timezone: U8)
    | StringParameters(validation: U8)
    | FixedBinaryParameters(byteWidth: U32)

  datatype LogicalType = LogicalType(kind: U8, parameters: Parameters)

  predicate ValidParameters(kind: U8, p: Parameters) {
    if kind == DECIMAL then
      p.DecimalParameters? && 1 <= p.precision <= 38 && -(p.precision as int) <= p.scale <= p.precision
    else if kind == TIME || kind == DURATION then p.TimeParameters? && p.unit <= LAST_TIME_UNIT
    else if kind == TIMESTAMP then
      p.TimestampParameters? && p.timestampUnit <= LAST_TIME_UNIT && p.timezone <= LAST_TIMEZONE_MODE
    else if kind == STRING then p.StringParameters? && (p.validation == STRICT || p.validation == TRUSTED)
    else if kind == FIXED_BINARY then p.FixedBinaryParameters? && p.byteWidth != 0
    else p.NoParameters?
  }

  /** The types a caller can hold. */
  predicate Created(t: LogicalType) {
    t.kind <= UUID && ValidParameters(t.kind, t.parameters)
  }

  function Create(kind: U8, parameters: Parameters): (r: Result<LogicalType>)
    ensures r.Ok? ==> Created(r.value)
  {
    if kind > UUID then Err(InvalidSchema)
    else if !ValidParameters(kind, parameters) then Err(InvalidSchema)
    else Ok(LogicalType(kind, parameters))
  }

  /** Which codes go together, in numbers; anything else is refused as an invalid schema. */
  predicate Admitted(kind: U8, p: Parameters) {
    match p
    case NoParameters => kind <= 10 || kind == 12 || kind == 17 || kind == 19
    case DecimalParameters(precision, scale) =>
      kind == 11 && 1 <= precision <= 38 && -(precision as int) <= scale <= precision
    case TimeParameters(unit) => (kind == 13 || kind == 15) && unit <= 3
    case TimestampParameters(unit, timezone) => kind == 14 && unit <= 3 && timezone <= 1
    case StringParameters(validation) => kind == 16 && validation <= 1
    case FixedBinaryParameters(width) => kind == 18 && width != 0
  }

  lemma CreatedExactly(kind: U8, p: Parameters)
    ensures Create(kind, p) == if Admitted(kind, p) then Ok(LogicalType(kind, p)) else Err(InvalidSchema)
  {
  }

  predicate IsVariableWidth(t: LogicalType) {
    t.kind == STRING || t.kind == BINARY
  }

  function FixedWidthBytes(t: LogicalType): U32
    requires t.kind == FIXED_BINARY ==> t.parameters.FixedBinaryParameters?
  {
    if t.kind == INT8 || t.kind == UINT8 then 1
    else if t.kind == INT16 || t.kind == UINT16 then 2
    else if t.kind == INT32 || t.kind == UINT32 || t.kind == FLOAT32 || t.kind == DATE then 4
    else if t.kind == INT64 || t.kind == UINT64 || t.kind == FLOAT64 then 8
    else if t.kind == TIME || t.kind == TIMESTAMP || t.kind == DURATION then 8
    else if t.kind == DECIMAL || t.kind == UUID then 16
    else if t.kind == FIXED_BINARY then t.parameters.byteWidth
    else 0
  }

  predicate IsFixedStorageType(t: LogicalType) {
    !IsVariableWidth(t) && t.kind != BOOLEAN
  }

  /** A width holds the values of a type when there are as many byte strings of that width as values. */
  lemma WidthHoldsValues(t: LogicalType)
    requires Created(t)
    ensures t.kind == 1 || t.kind == 5 ==> Capacity(FixedWidthBytes(t)) == 0x100
    ensures t.kind == 2 || t.kind == 6 ==> Capacity(FixedWidthBytes(t)) == 0x1_0000
    ensures t.kind == 3 || t.kind == 7 || t.kind == 9 || t.kind == 12 ==>
              Capacity(FixedWidthBytes(t)) == 0x1_0000_0000
    ensures t.kind == 4 || t.kind == 8 || t.kind == 10 || t.kind == 13 || t.kind == 14 || t.kind == 15 ==>
              Capacity(FixedWidthBytes(t)) == 0x1_0000_0000_0000_0000
    ensures t.kind == 11 || t.kind == 19 ==>
              Capacity(FixedWidthBytes(t)) == 0x1_0000_0000_0000_0000_0000_0000_0000_0000
    ensures t.kind == 18 ==> FixedWidthBytes(t) == t.parameters.byteWidth
    ensures t.kind == 0 || t.kind == 16 || t.kind == 17 ==> FixedWidthBytes(t) == 0
  {
    Capacities();
    SixteenBytes();
  }

  lemma SixteenBytes()
    ensures Capacity(16) == 0x1_0000_0000_0000_0000_0000_0000_0000_0000
  {
    Capacities();
    assert Capacity(10) == 0x1_0000 * Capacity(8);
    assert Capacity(12) == 0x1_0000 * Capacity(10);
    assert Capacity(14) == 0x1_0000 * Capacity(12);
    assert Capacity(16) == 0x1_0000 * Capacity(14);
  }

  /** `size` bytes are exactly `n` values of a type stored byte for byte, by kind code. */
  predicate HoldsExactly(t: LogicalType, n: nat, size: nat)
    requires Created(t)
  {
    && (t.kind == 1 || t.kind == 5 ==> size == n)
    && (t.kind == 2 || t.kind == 6 ==> size == 2 * n)
    && (t.kind == 3 || t.kind == 7 || t.kind == 9 || t.kind == 12 ==> size == 4 * n)
    && (t.kind == 4 || t.kind == 8 || t.kind == 10 || t.kind == 13 || t.kind == 14 || t.kind == 15 ==> size == 8 * n)
    && (t.kind == 11 || t.kind == 19 ==> size == 16 * n)
    && (t.kind == 18 ==> size == t.parameters.byteWidth * n)
  }

  lemma FixedSizeExactly(t: LogicalType, n: nat, size: nat)
    requires Created(t) && IsFixedStorageType(t)
    ensures size == n * FixedWidthBytes(t) <==> HoldsExactly(t, n, size)
  {
  }

  /** The types stored byte for byte are all but bool, string and binary. */
  lemma FixedStorageKinds(t: LogicalType)
    requires Created(t)
    ensures IsFixedStorageType(t) <==> t.kind != 0 && t.kind != 16 && t.kind != 17
    ensures IsVariableWidth(t) <==> t.kind == 16 || t.kind == 17
  {
  }

  /** Exactly the types stored byte for byte have a nonzero width. */
  lemma FixedStorageHasWidth(t: LogicalType)
    requires Created(t)
    ensures IsFixedStorageType(t) <==> FixedWidthBytes(t) > 0
  {
  }
}
