/** Typed columns: dense non-null values in immutable buffers. */
module Columns {
  import opened Outcomes
  import opened LogicalTypes
  import opened Validities

  datatype StorageKind = FixedWidth | BooleanBits | VariableWidth

  datatype Column = Column(
    columnType: LogicalType,
    storage: StorageKind,
    rowCount: U64,
    validity: Option<Validity>,
    values: Option<Bytes>,
    offsets: Option<seq<U64>>,
    payload: Option<Bytes>)

  function NullCount(c: Column): U64 {
    if c.validity.Some? then c.validity.value.nullCount else 0
  }

  predicate RowIsValid(c: Column, row: nat)
    requires Built(c)
  {
    row < c.rowCount && (c.validity.Some? ==> IsValid(c.validity.value, row))
  }

  predicate ValidityFits(rowCount: U64, validity: Option<Validity>) {
    validity.Some? ==> WellFormed(validity.value) && validity.value.rowCount == rowCount
  }

  /** What every column that left a column builder satisfies. */
  predicate Built(c: Column) {
    && Created(c.columnType)
    && ValidityFits(c.rowCount, c.validity)
    && (match c.storage
        case FixedWidth => IsFixedStorageType(c.columnType) && c.values.Some? && c.offsets.None? && c.payload.None?
        case BooleanBits =>
          c.columnType == LogicalType(BOOLEAN, NoParameters) && c.values.Some? && c.offsets.None? && c.payload.None?
        case VariableWidth => IsVariableWidth(c.columnType) && c.values.None? && c.offsets.Some? && c.payload.Some?)
    && (c.values.Some? ==> |c.values.value| < TWO_TO_64)
    && (c.offsets.Some? ==> |c.offsets.value| < TWO_TO_64)
    && (c.payload.Some? ==> |c.payload.value| < TWO_TO_64)
  }

  // ---------- the three builders ----------

  /** The parts a builder was given hold together, so that they make a column of `storage`. */
  predicate Complete(storage: StorageKind, columnType: LogicalType, rowCount: U64, validity: Option<Validity>,
                     values: Option<Bytes>, offsets: Option<seq<U64>>, payload: Option<Bytes>) {
    && (validity.Some? ==> validity.value.rowCount == rowCount)
    && match storage
       case FixedWidth => IsFixedStorageType(columnType) && values.Some?
       case BooleanBits => values.Some?
       case VariableWidth => IsVariableWidth(columnType) && offsets.Some? && payload.Some?
  }

  predicate Sized<T>(part: Option<seq<T>>) {
    part.Some? ==> |part.value| < TWO_TO_64
  }

  predicate Counted(validity: Option<Validity>) {
    validity.Some? ==> WellFormed(validity.value)
  }

  /** Each part is set once; finishing asks for every part and for one row count. */
  class FixedWidthColumnBuilder {
    const columnType: LogicalType
    const rowCount: U64
    var validity: Option<Validity>
    var values: Option<Bytes>
    var finished: bool

    predicate Valid()
      reads this
    {
      Created(columnType) && Counted(validity) && Sized(values)
    }

    constructor (columnType: LogicalType, rowCount: U64)
      requires Created(columnType)
      ensures Valid() && validity == None && values == None && !finished
      ensures this.columnType == columnType && this.rowCount == rowCount
    {
      this.columnType, this.rowCount := columnType, rowCount;
      validity, values, finished := None, None, false;
    }

    method SetValidity(part: Validity) returns (r: Status)
      requires Valid() && WellFormed(part)
      modifies this
      ensures Valid() && values == old(values) && finished == old(finished)
      ensures r == if old(finished) || old(validity).Some? then Err(InvalidState) else Ok(Unit)
      ensures validity == if r.Ok? then Some(part) else old(validity)
    {
      if finished || validity.Some? {
        return Err(InvalidState);
      }
      validity := Some(part);
      return Ok(Unit);
    }

    method SetValues(part: Bytes) returns (r: Status)
      requires Valid() && |part| < TWO_TO_64
      modifies this
      ensures Valid() && validity == old(validity) && finished == old(finished)
      ensures r == if old(finished) || old(values).Some? then Err(InvalidState) else Ok(Unit)
      ensures values == if r.Ok? then Some(part) else old(values)
    {
      if finished || values.Some? {
        return Err(InvalidState);
      }
      values := Some(part);
      return Ok(Unit);
    }

    method Finish() returns (r: Result<Column>)
      requires Valid()
      modifies this
      ensures validity == old(validity) && values == old(values)
      ensures r.Ok? <==> !old(finished) && Complete(FixedWidth, columnType, rowCount, validity, values, None, None)
      ensures r.Ok? ==>
                && Built(r.value)
                && r.value == Column(columnType, FixedWidth, rowCount, validity, values, None, None)
      ensures r.Err? ==> r.error == InvalidBlock
      ensures finished == (old(finished) || (values.Some? && IsFixedStorageType(columnType)))
    {
      if finished || values.None? || !IsFixedStorageType(columnType) {
        return Err(InvalidBlock);
      }
      finished := true;
      if validity.Some? && validity.value.rowCount != rowCount {
        return Err(InvalidBlock);
      }
      return Ok(Column(columnType, FixedWidth, rowCount, validity, values, None, None));
    }
  }

  class BooleanColumnBuilder {
    const rowCount: U64
    var validity: Option<Validity>
    var values: Option<Bytes>
    var finished: bool

    predicate Valid()
      reads this
    {
      Counted(validity) && Sized(values)
    }

    constructor (rowCount: U64)
      ensures Valid() && validity == None && values == None && !finished
      ensures this.rowCount == rowCount
    {
      this.rowCount := rowCount;
      validity, values, finished := None, None, false;
    }

    method SetValidity(part: Validity) returns (r: Status)
      requires Valid() && WellFormed(part)
      modifies this
      ensures Valid() && values == old(values) && finished == old(finished)
      ensures r == if old(finished) || old(validity).Some? then Err(InvalidState) else Ok(Unit)
      ensures validity == if r.Ok? then Some(part) else old(validity)
    {
      if finished || validity.Some? {
        return Err(InvalidState);
      }
      validity := Some(part);
      return Ok(Unit);
    }

    method SetValues(part: Bytes) returns (r: Status)
      requires Valid() && |part| < TWO_TO_64
      modifies this
      ensures Valid() && validity == old(validity) && finished == old(finished)
      ensures r == if old(finished) || old(values).Some? then Err(InvalidState) else Ok(Unit)
      ensures values == if r.Ok? then Some(part) else old(values)
    {
      if finished || values.Some? {
        return Err(InvalidState);
      }
      values := Some(part);
      return Ok(Unit);
    }

    /** The type is made afresh, and always can be. */
    method Finish() returns (r: Result<Column>)
      requires Valid()
      modifies this
      ensures validity == old(validity) && values == old(values)
      ensures r.Ok? <==>
                && !old(finished)
                && Complete(BooleanBits, LogicalType(BOOLEAN, NoParameters), rowCount, validity, values, None, None)
      ensures r.Ok? ==>
                && Built(r.value)
                && r.value
                   == Column(LogicalType(BOOLEAN, NoParameters), BooleanBits, rowCount, validity, values, None, None)
      ensures r.Err? ==> r.error == InvalidBlock
      ensures finished == (old(finished) || values.Some?)
    {
      if finished || values.None? {
        return Err(InvalidBlock);
      }
      finished := true;
      if validity.Some? && validity.value.rowCount != rowCount {
        return Err(InvalidBlock);
      }
      var columnType := Create(BOOLEAN, NoParameters).value;
      return Ok(Column(columnType, BooleanBits, rowCount, validity, values, None, None));
    }
  }

  class VariableWidthColumnBuilder {
    const columnType: LogicalType
    const rowCount: U64
    var validity: Option<Validity>
    var offsets: Option<seq<U64>>
    var payload: Option<Bytes>
    var finished: bool

    predicate Valid()
      reads this
    {
      Created(columnType) && Counted(validity) && Sized(offsets) && Sized(payload)
    }

    constructor (columnType: LogicalType, rowCount: U64)
      requires Created(columnType)
      ensures Valid() && validity == None && offsets == None && payload == None && !finished
      ensures this.columnType == columnType && this.rowCount == rowCount
    {
      this.columnType, this.rowCount := columnType, rowCount;
      validity, offsets, payload, finished := None, None, None, false;
    }

    method SetValidity(part: Validity) returns (r: Status)
      requires Valid() && WellFormed(part)
      modifies this
      ensures Valid() && offsets == old(offsets) && payload == old(payload) && finished == old(finished)
      ensures r == if old(finished) || old(validity).Some? then Err(InvalidState) else Ok(Unit)
      ensures validity == if r.Ok? then Some(part) else old(validity)
    {
      if finished || validity.Some? {
        return Err(InvalidState);
      }
      validity := Some(part);
      return Ok(Unit);
    }

    method SetOffsets(part: seq<U64>) returns (r: Status)
      requires Valid() && |part| < TWO_TO_64
      modifies this
      ensures Valid() && validity == old(validity) && payload == old(payload) && finished == old(finished)
      ensures r == if old(finished) || old(offsets).Some? then Err(InvalidState) else Ok(Unit)
      ensures offsets == if r.Ok? then Some(part) else old(offsets)
    {
      if finished || offsets.Some? {
        return Err(InvalidState);
      }
      offsets := Some(part);
      return Ok(Unit);
    }

    method SetPayload(part: Bytes) returns (r: Status)
      requires Valid() && |part| < TWO_TO_64
      modifies this
      ensures Valid() && validity == old(validity) && offsets == old(offsets) && finished == old(finished)
      ensures r == if old(finished) || old(payload).Some? then Err(InvalidState) else Ok(Unit)
      ensures payload == if r.Ok? then Some(part) else old(payload)
    {
      if finished || payload.Some? {
        return Err(InvalidState);
      }
      payload := Some(part);
      return Ok(Unit);
    }

    method Finish() returns (r: Result<Column>)
      requires Valid()
      modifies this
      ensures validity == old(validity) && offsets == old(offsets) && payload == old(payload)
      ensures r.Ok? <==>
                !old(finished) && Complete(VariableWidth, columnType, rowCount, validity, None, offsets, payload)
      ensures r.Ok? ==>
                && Built(r.value)
                && r.value == Column(columnType, VariableWidth, rowCount, validity, None, offsets, payload)
      ensures r.Err? ==> r.error == InvalidBlock
      ensures finished == (old(finished) || (offsets.Some? && payload.Some? && IsVariableWidth(columnType)))
    {
      if finished || offsets.None? || payload.None? || !IsVariableWidth(columnType) {
        return Err(InvalidBlock);
      }
      finished := true;
      if validity.Some? && validity.value.rowCount != rowCount {
        return Err(InvalidBlock);
      }
      return Ok(Column(columnType, VariableWidth, rowCount, validity, None, offsets, payload));
    }
  }

  // ---------- counting ----------

  /** How many of the first `n` rows hold a value. */
  function ValidRows(c: Column, n: nat): nat
    requires Built(c) && n <= c.rowCount
  {
    if n == 0 then 0 else ValidRows(c, n - 1) + (if RowIsValid(c, n - 1) then 1 else 0)
  }

  lemma {:induction false} ValidRowsCounted(c: Column, n: nat)
    requires Built(c) && n <= c.rowCount
    ensures ValidRows(c, n) == if c.validity.Some? then CountRows(c.validity.value.bitmap, n) else n
    decreases n
  {
    if n > 0 {
      ValidRowsCounted(c, n - 1);
    }
  }

  /** Rows minus nulls is the number of rows that hold a value, and never underflows. */
  lemma DenseCount(c: Column)
    requires Built(c)
    ensures NullCount(c) <= c.rowCount
    ensures c.rowCount - NullCount(c) == ValidRows(c, c.rowCount)
  {
    ValidRowsCounted(c, c.rowCount);
  }
}
