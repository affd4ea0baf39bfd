/** Blocks: whole-block validation, and what a finished block gives its readers. */
module Blocks {
  import opened Outcomes
  import opened Utf8
  import opened LogicalTypes
  import opened Endian
  import opened SchemaCanonical
  import opened SchemaDecoder
  import opened SchemaBuilders
  import opened Limits
  import opened Validities
  import opened Columns

  // ---------- decoded bytes ----------

  /** A running total that must stay within the limit, added without overflow. */
  function AddDecodedBytes(amount: U64, limit: U64, total: U64): (r: Result<U64>)
    ensures r.Ok? <==> total + amount <= limit
    ensures r.Ok? ==> r.value == total + amount
    ensures r.Err? ==> r.error == Excess(total + amount)
  {
    var next :- CheckedAdd(total, amount);
    if next > limit then Err(LimitExceeded) else Ok(next)
  }

  /** Everything a column keeps in memory once decoded. */
  function ColumnBytes(c: Column): nat {
    (if c.validity.Some? then |c.validity.value.bitmap| else 0)
    + (if c.values.Some? then |c.values.value| else 0)
    + (if c.offsets.Some? then 8 * |c.offsets.value| else 0)
    + (if c.payload.Some? then |c.payload.value| else 0)
  }

  // ---------- one column ----------

  predicate FixedFits(c: Column, dense: nat)
    requires Built(c)
  {
    c.values.Some? && |c.values.value| == dense * FixedWidthBytes(c.columnType)
  }

  function FixedError(c: Column, dense: nat, total: nat): ErrorCode
    requires Built(c) && c.storage == FixedWidth
  {
    if dense * FixedWidthBytes(c.columnType) >= TWO_TO_64 then ArithmeticOverflow
    else if !FixedFits(c, dense) then InvalidBlock
    else Excess(total + |c.values.value|)
  }

  method ValidateFixed(c: Column, dense: U64, limits: ResourceLimits, total: U64) returns (r: Result<U64>)
    requires Built(c) && c.storage == FixedWidth
    ensures r.Ok? <==> FixedFits(c, dense) && total + |c.values.value| <= limits.maximumDecodedBlockBytes
    ensures r.Ok? ==> r.value == total + |c.values.value|
    ensures r.Ok? ==> HoldsExactly(c.columnType, dense, |c.values.value|)
    ensures r.Err? ==> r.error == FixedError(c, dense, total)
  {
    FixedSizeExactly(c.columnType, dense, |c.values.value|);
    var width := FixedWidthBytes(c.columnType);
    var expected := CheckedMultiply(dense, width);
    if expected.Err? {
      return Err(ArithmeticOverflow);
    }
    if |c.values.value| != expected.value {
      return Err(InvalidBlock);
    }
    return AddDecodedBytes(expected.value, limits.maximumDecodedBlockBytes, total);
  }

  predicate BooleanFits(c: Column, dense: nat) {
    && dense <= TWO_TO_64 - 8
    && c.values.Some? && |c.values.value| == (dense + 7) / 8
    && PaddingClear(dense, c.values.value)
  }

  function BooleanError(c: Column, dense: nat, total: nat): ErrorCode
    requires Built(c) && c.storage == BooleanBits
  {
    if !BooleanFits(c, dense) then InvalidBlock else Excess(total + |c.values.value|)
  }

  method ValidateBoolean(c: Column, dense: U64, limits: ResourceLimits, total: U64) returns (r: Result<U64>)
    requires Built(c) && c.storage == BooleanBits
    ensures r.Ok? <==> BooleanFits(c, dense) && total + |c.values.value| <= limits.maximumDecodedBlockBytes
    ensures r.Ok? ==> r.value == total + |c.values.value|
    ensures r.Err? ==> r.error == BooleanError(c, dense, total)
  {
    if dense > TWO_TO_64 - 1 - 7 {
      return Err(InvalidBlock);
    }
    var values := c.values.value;
    var expected := (dense + 7) / 8;
    if |values| != expected {
      return Err(InvalidBlock);
    }
    LastByteIsPadding(dense, values);
    if dense % 8 != 0 && expected != 0 {
      var used := dense % 8;
      if values[|values| - 1] & PaddingMask(used) != 0 {
        return Err(InvalidBlock);
      }
    }
    return AddDecodedBytes(expected, limits.maximumDecodedBlockBytes, total);
  }

  /** Offsets that start at zero, never decrease and never span more than one record. */
  predicate OffsetsOrdered(offsets: seq<U64>, maximum: U64) {
    && |offsets| > 0 && offsets[0] == 0
    && forall i | 1 <= i < |offsets| :: offsets[i - 1] <= offsets[i] && offsets[i] - offsets[i - 1] <= maximum
  }

  lemma {:induction false} OffsetsWithin(offsets: seq<U64>, maximum: U64, i: nat)
    requires OffsetsOrdered(offsets, maximum) && i < |offsets|
    ensures offsets[i] <= offsets[|offsets| - 1]
    decreases |offsets| - i
  {
    if i + 1 < |offsets| {
      assert offsets[i + 1 - 1] <= offsets[i + 1];
      OffsetsWithin(offsets, maximum, i + 1);
    }
  }

  predicate IsStrict(t: LogicalType) {
    t.kind == STRING && t.parameters.StringParameters? && t.parameters.validation == STRICT
  }

  /** The value between two offsets; total, so that it can be spoken of before validation. */
  function Slice(offsets: seq<U64>, payload: Bytes, i: nat): Bytes {
    if i + 1 < |offsets| && offsets[i] <= offsets[i + 1] <= |payload| then payload[offsets[i]..offsets[i + 1]] else []
  }

  predicate OffsetsFit(c: Column, dense: nat, maximum: U64)
    requires c.offsets.Some? && c.payload.Some?
  {
    var offsets := c.offsets.value;
    && dense < TWO_TO_64 - 1 && |offsets| == dense + 1
    && OffsetsOrdered(offsets, maximum)
    && offsets[|offsets| - 1] == |c.payload.value|
  }

  ghost predicate VariableFits(c: Column, dense: nat, maximum: U64)
    requires c.offsets.Some? && c.payload.Some?
  {
    && OffsetsFit(c, dense, maximum)
    && (IsStrict(c.columnType) ==> forall i | 0 <= i < dense :: IsUtf8(Slice(c.offsets.value, c.payload.value, i)))
  }

  /** Shape is judged first, then the two sums, then the text. */
  function VariableError(c: Column, dense: nat, limits: ResourceLimits, total: nat): ErrorCode
    requires Built(c) && c.storage == VariableWidth
  {
    var withOffsets := total + 8 * |c.offsets.value|;
    var withPayload := withOffsets + |c.payload.value|;
    if !OffsetsFit(c, dense, limits.maximumRecordBytes) then InvalidBlock
    else if withOffsets > limits.maximumDecodedBlockBytes then Excess(withOffsets)
    else if withPayload > limits.maximumDecodedBlockBytes then Excess(withPayload)
    else InvalidBlock
  }

  method CheckOffsets(offsets: seq<U64>, maximum: U64) returns (r: Status)
    ensures r == if OffsetsOrdered(offsets, maximum) then Ok(Unit) else Err(InvalidBlock)
  {
    if |offsets| == 0 || offsets[0] != 0 {
      return Err(InvalidBlock);
    }
    for index := 1 to |offsets|
      invariant forall i | 1 <= i < index :: offsets[i - 1] <= offsets[i] && offsets[i] - offsets[i - 1] <= maximum
    {
      if offsets[index] < offsets[index - 1] {
        return Err(InvalidBlock);
      }
      if offsets[index] - offsets[index - 1] > maximum {
        return Err(InvalidBlock);
      }
    }
    return Ok(Unit);
  }

  method CheckStrings(offsets: seq<U64>, payload: Bytes, maximum: U64) returns (r: Status)
    requires OffsetsOrdered(offsets, maximum) && offsets[|offsets| - 1] == |payload|
    ensures r.Ok? <==> forall i | 0 <= i < |offsets| - 1 :: IsUtf8(Slice(offsets, payload, i))
    ensures r.Err? ==> r.error == InvalidBlock
  {
    for index := 1 to |offsets|
      invariant forall i | 0 <= i < index - 1 :: IsUtf8(Slice(offsets, payload, i))
    {
      OffsetsWithin(offsets, maximum, index);
      var begin := offsets[index - 1];
      var length := offsets[index] - offsets[index - 1];
      assert payload[begin..begin + length] == Slice(offsets, payload, index - 1);
      var valid := ValidUtf8(payload[begin..begin + length]);
      if !valid {
        return Err(InvalidBlock);
      }
    }
    return Ok(Unit);
  }

  method ValidateVariable(c: Column, dense: U64, limits: ResourceLimits, total: U64) returns (r: Result<U64>)
    requires Built(c) && c.storage == VariableWidth
    ensures r.Ok? <==>
              && VariableFits(c, dense, limits.maximumRecordBytes)
              && total + 8 * |c.offsets.value| + |c.payload.value| <= limits.maximumDecodedBlockBytes
    ensures r.Ok? ==> r.value == total + 8 * |c.offsets.value| + |c.payload.value|
    ensures r.Err? ==> r.error == VariableError(c, dense, limits, total)
  {
    if dense == TWO_TO_64 - 1 {
      return Err(InvalidBlock);
    }
    var expectedCount := dense + 1;
    var offsets, payload := c.offsets.value, c.payload.value;
    if |offsets| != expectedCount {
      return Err(InvalidBlock);
    }
    var ordered := CheckOffsets(offsets, limits.maximumRecordBytes);
    if ordered.Err? {
      return Err(InvalidBlock);
    }
    if offsets[|offsets| - 1] != |payload| {
      return Err(InvalidBlock);
    }
    var offsetBytes := CheckedMultiply(expectedCount, 8);
    if offsetBytes.Err? {
      return Err(ArithmeticOverflow);
    }
    var afterOffsets := AddDecodedBytes(offsetBytes.value, limits.maximumDecodedBlockBytes, total);
    if afterOffsets.Err? {
      return afterOffsets;
    }
    var afterPayload := AddDecodedBytes(|payload|, limits.maximumDecodedBlockBytes, afterOffsets.value);
    if afterPayload.Err? {
      return afterPayload;
    }
    if IsStrict(c.columnType) {
      var strings := CheckStrings(offsets, payload, limits.maximumRecordBytes);
      if strings.Err? {
        return Err(InvalidBlock);
      }
    }
    return afterPayload;
  }

  /** A column that belongs to its field: rows, type, nullability and physical components all agree. */
  ghost predicate ColumnFits(f: Field, c: Column, rowCount: U64, limits: ResourceLimits)
    requires Built(c)
  {
    && c.rowCount == rowCount
    && c.columnType == f.fieldType
    && (c.validity.Some? ==> f.nullable)
    && var dense := ValidRows(c, c.rowCount);
       match c.storage
       case FixedWidth => FixedFits(c, dense)
       case BooleanBits => BooleanFits(c, dense)
       case VariableWidth => VariableFits(c, dense, limits.maximumRecordBytes)
  }

  function ValidityBytes(c: Column): nat {
    if c.validity.Some? then |c.validity.value.bitmap| else 0
  }

  // ---------- what fitting means, in numbers ----------

  /** Offsets, payload and text of `n` values, spelled out. */
  ghost predicate HoldsTexts(c: Column, n: nat, maximum: U64)
    requires c.offsets.Some? && c.payload.Some?
  {
    var offsets, payload := c.offsets.value, c.payload.value;
    && |offsets| == n + 1 && offsets[0] == 0 && offsets[n] == |payload|
    && (forall i | 1 <= i <= n :: offsets[i - 1] <= offsets[i] <= offsets[i - 1] + maximum)
    && (c.columnType.kind == 16 && c.columnType.parameters == StringParameters(0) ==>
          forall i | 1 <= i <= n ::
            offsets[i - 1] <= offsets[i] <= |payload| && IsUtf8(payload[offsets[i - 1]..offsets[i]]))
  }

  lemma SlicesInside(offsets: seq<U64>, payload: Bytes, maximum: U64, i: nat)
    requires OffsetsOrdered(offsets, maximum) && offsets[|offsets| - 1] == |payload| && 1 <= i < |offsets|
    ensures offsets[i - 1] <= offsets[i] <= |payload|
    ensures Slice(offsets, payload, i - 1) == payload[offsets[i - 1]..offsets[i]]
  {
    OffsetsWithin(offsets, maximum, i);
  }

  lemma FittingTextsHold(c: Column, n: nat, maximum: U64)
    requires Built(c) && c.storage == VariableWidth && VariableFits(c, n, maximum)
    ensures HoldsTexts(c, n, maximum)
  {
    var offsets, payload := c.offsets.value, c.payload.value;
    if IsStrict(c.columnType) {
      forall i | 1 <= i <= n
        ensures offsets[i - 1] <= offsets[i] <= |payload| && IsUtf8(payload[offsets[i - 1]..offsets[i]])
      {
        SlicesInside(offsets, payload, maximum, i);
        assert IsUtf8(Slice(offsets, payload, i - 1));
      }
    }
  }

  lemma HeldTextsFit(c: Column, n: nat, maximum: U64)
    requires Built(c) && c.storage == VariableWidth && HoldsTexts(c, n, maximum)
    ensures VariableFits(c, n, maximum)
  {
    var offsets, payload := c.offsets.value, c.payload.value;
    if IsStrict(c.columnType) {
      forall i | 0 <= i < n
        ensures IsUtf8(Slice(offsets, payload, i))
      {
        SlicesInside(offsets, payload, maximum, i + 1);
        assert IsUtf8(payload[offsets[i + 1 - 1]..offsets[i + 1]]);
      }
    }
  }

  lemma TextsFitExactly(c: Column, n: nat, maximum: U64)
    requires Built(c) && c.storage == VariableWidth
    ensures VariableFits(c, n, maximum) <==> HoldsTexts(c, n, maximum)
  {
    if VariableFits(c, n, maximum) {
      FittingTextsHold(c, n, maximum);
    }
    if HoldsTexts(c, n, maximum) {
      HeldTextsFit(c, n, maximum);
    }
  }

  /** A column fits its field exactly when both agree and its values are as many as its valid rows. */
  lemma FitsExactly(f: Field, c: Column, rowCount: U64, limits: ResourceLimits)
    requires Built(c)
    ensures ColumnFits(f, c, rowCount, limits) <==>
            && c.rowCount == rowCount
            && c.columnType == f.fieldType
            && (!f.nullable ==> c.validity == None)
            && var n := ValidRows(c, c.rowCount);
               match c.storage
               case FixedWidth => HoldsExactly(c.columnType, n, |c.values.value|)
               case BooleanBits =>
                 n <= 0xffff_ffff_ffff_fff8 && |c.values.value| == (n + 7) / 8 && PaddingClear(n, c.values.value)
               case VariableWidth => HoldsTexts(c, n, limits.maximumRecordBytes)
  {
    var n := ValidRows(c, c.rowCount);
    match c.storage
    case FixedWidth => FixedSizeExactly(c.columnType, n, |c.values.value|);
    case BooleanBits =>
    case VariableWidth => TextsFitExactly(c, n, limits.maximumRecordBytes);
  }

  /** Adds the bytes of a validity bitmap, when there is one. */
  method AddValidityBytes(c: Column, limit: U64, total: U64) returns (r: Result<U64>)
    requires Built(c) && total <= limit
    ensures r == if total + ValidityBytes(c) <= limit then Ok(total + ValidityBytes(c))
                 else Err(Excess(total + ValidityBytes(c)))
  {
    if c.validity.None? {
      return Ok(total);
    }
    return AddDecodedBytes(|c.validity.value.bitmap|, limit, total);
  }

  /** The one reason a column is refused for: agreement with the field, then the bitmap, then the values. */
  function ColumnError(f: Field, c: Column, rowCount: U64, limits: ResourceLimits, total: U64): ErrorCode
    requires Built(c)
  {
    var withValidity := total + ValidityBytes(c);
    if c.rowCount != rowCount || c.columnType != f.fieldType || (c.validity.Some? && !f.nullable) then InvalidBlock
    else if withValidity > limits.maximumDecodedBlockBytes then Excess(withValidity)
    else
      var dense := ValidRows(c, c.rowCount);
      match c.storage
      case FixedWidth => FixedError(c, dense, withValidity)
      case BooleanBits => BooleanError(c, dense, withValidity)
      case VariableWidth => VariableError(c, dense, limits, withValidity)
  }

  /** A column is accepted exactly when it fits its field and the running total stays within the limit. */
  method ValidateColumn(f: Field, c: Column, rowCount: U64, limits: ResourceLimits, total: U64) returns (r: Result<U64>)
    requires Built(c) && total <= limits.maximumDecodedBlockBytes
    ensures r.Ok? <==> ColumnFits(f, c, rowCount, limits) && total + ColumnBytes(c) <= limits.maximumDecodedBlockBytes
    ensures r.Ok? ==> r.value == total + ColumnBytes(c)
    ensures r.Err? ==> r.error == ColumnError(f, c, rowCount, limits, total)
  {
    DenseCount(c);
    if c.rowCount != rowCount {
      return Err(InvalidBlock);
    }
    if c.columnType != f.fieldType {
      return Err(InvalidBlock);
    }
    if !f.nullable && c.validity.Some? {
      return Err(InvalidBlock);
    }
    if NullCount(c) > rowCount {
      return Err(InvalidBlock);
    }
    var afterValidity := AddValidityBytes(c, limits.maximumDecodedBlockBytes, total);
    if afterValidity.Err? {
      return afterValidity;
    }
    var dense := rowCount - NullCount(c);
    match c.storage {
      case FixedWidth =>
        r := ValidateFixed(c, dense, limits, afterValidity.value);
      case BooleanBits =>
        if f.fieldType.kind != BOOLEAN {
          return Err(InvalidBlock);
        }
        r := ValidateBoolean(c, dense, limits, afterValidity.value);
      case VariableWidth =>
        r := ValidateVariable(c, dense, limits, afterValidity.value);
    }
  }

  // ---------- blocks ----------

  datatype Block = Block(schema: Schema, id: U64, rowCount: U64, columns: seq<Column>)

  function ColumnsBytes(columns: seq<Column>): nat
    decreases |columns|
  {
    if |columns| == 0 then 0 else ColumnsBytes(columns[..|columns| - 1]) + ColumnBytes(columns[|columns| - 1])
  }

  lemma {:induction false} ColumnsPrefixBytes(columns: seq<Column>, n: nat)
    requires n <= |columns|
    ensures ColumnsBytes(columns[..n]) <= ColumnsBytes(columns)
    decreases |columns|
  {
    if n < |columns| {
      assert columns[..n] == columns[..|columns| - 1][..n];
      ColumnsPrefixBytes(columns[..|columns| - 1], n);
    } else {
      assert columns[..n] == columns;
    }
  }

  function OffsetBytes(offset: U64): Bytes {
    EncodeLe(offset, 8)
  }

  /** Everything a column keeps in memory, one part after the other, with offsets as 64-bit words. */
  function DecodedOf(c: Column): Bytes {
    (if c.validity.Some? then c.validity.value.bitmap else [])
    + (if c.values.Some? then c.values.value else [])
    + (if c.offsets.Some? then WriteMany(OffsetBytes, c.offsets.value) else [])
    + (if c.payload.Some? then c.payload.value else [])
  }

  lemma {:induction false} OffsetsCounted(offsets: seq<U64>)
    ensures |WriteMany(OffsetBytes, offsets)| == 8 * |offsets|
    decreases |offsets|
  {
    if |offsets| > 0 {
      OffsetsCounted(offsets[1..]);
    }
  }

  /** The decoded-bytes limit counts every byte of every bitmap, value buffer, offset table and payload. */
  lemma {:induction false} DecodedBytesCounted(columns: seq<Column>)
    ensures ColumnsBytes(columns) == |WriteMany(DecodedOf, columns)|
    decreases |columns|
  {
    if |columns| > 0 {
      var n := |columns| - 1;
      DecodedBytesCounted(columns[..n]);
      if columns[n].offsets.Some? {
        OffsetsCounted(columns[n].offsets.value);
      }
      WriteManyAppend(DecodedOf, columns[..n], columns[n]);
      assert columns[..n] + [columns[n]] == columns;
    }
  }

  predicate AllBuilt(columns: seq<Column>) {
    forall i {:trigger Built(columns[i])} | 0 <= i < |columns| :: Built(columns[i])
  }

  /** The first `n` columns fit their fields. */
  ghost predicate AllFit(fields: seq<Field>, columns: seq<Column>, rowCount: U64, limits: ResourceLimits, n: nat)
    requires AllBuilt(columns) && n <= |columns| == |fields|
  {
    forall i {:trigger ColumnFits(fields[i], columns[i], rowCount, limits)}
      | 0 <= i < n :: assert Built(columns[i]); ColumnFits(fields[i], columns[i], rowCount, limits)
  }

  /** What every published block satisfies under the limits it was finished with. */
  ghost predicate FinishedBlock(b: Block, limits: ResourceLimits) {
    && FinishedSchema(b.schema)
    && 0 < b.rowCount <= limits.maximumBlockRows
    && |b.columns| == |b.schema.fields|
    && AllBuilt(b.columns)
    && AllFit(b.schema.fields, b.columns, b.rowCount, limits, |b.columns|)
    && ColumnsBytes(b.columns) <= limits.maximumDecodedBlockBytes
  }

  function FieldIds(fields: seq<Field>): set<U32>
    decreases |fields|
  {
    if |fields| == 0 then {} else FieldIds(fields[..|fields| - 1]) + {fields[|fields| - 1].id}
  }

  lemma {:induction false} FieldIdMember(fields: seq<Field>, id: U32)
    ensures id in FieldIds(fields) <==> exists i | 0 <= i < |fields| :: fields[i].id == id
    decreases |fields|
  {
    if |fields| > 0 {
      var n := |fields| - 1;
      FieldIdMember(fields[..n], id);
      assert forall i | 0 <= i < n :: fields[..n][i] == fields[i];
    }
  }

  lemma {:induction false} DistinctIdsCounted(fields: seq<Field>)
    requires DistinctFields(fields)
    ensures |FieldIds(fields)| == |fields|
    decreases |fields|
  {
    if |fields| > 0 {
      var n := |fields| - 1;
      assert forall i | 0 <= i < n :: fields[..n][i] == fields[i];
      DistinctIdsCounted(fields[..n]);
      FieldIdMember(fields[..n], fields[n].id);
    }
  }

  lemma SubsetOfSameSize<T>(a: set<T>, b: set<T>)
    requires a <= b && |a| == |b|
    ensures a == b
  {
    assert |b - a| == |b| - |a|;
    assert b - a == {};
  }

  /** With unique identifiers, as many columns as fields means one column for every field. */
  lemma EveryFieldHasColumn(fields: seq<Field>, columns: map<U32, Column>)
    requires DistinctFields(fields)
    requires columns.Keys <= FieldIds(fields) && |columns| == |fields|
    ensures forall i | 0 <= i < |fields| :: fields[i].id in columns
  {
    DistinctIdsCounted(fields);
    assert |columns.Keys| == |columns|;
    SubsetOfSameSize(columns.Keys, FieldIds(fields));
    forall i | 0 <= i < |fields|
      ensures fields[i].id in columns
    {
      FieldIdMember(fields, fields[i].id);
    }
  }

  /** The columns in field order. */
  function Ordered(fields: seq<Field>, columns: map<U32, Column>): (ordered: seq<Column>)
    requires forall i | 0 <= i < |fields| :: fields[i].id in columns
    ensures |ordered| == |fields|
    ensures forall i | 0 <= i < |fields| :: ordered[i] == columns[fields[i].id]
  {
    seq(|fields|, i requires 0 <= i < |fields| => columns[fields[i].id])
  }

  lemma NextColumn(whole: seq<Column>, index: nat)
    requires index < |whole|
    ensures ColumnsBytes(whole[..index + 1]) == ColumnsBytes(whole[..index]) + ColumnBytes(whole[index])
    ensures whole[..index + 1] == whole[..index] + [whole[index]]
    ensures ColumnsBytes(whole[..index + 1]) <= ColumnsBytes(whole)
  {
    assert whole[..index + 1][..index] == whole[..index];
    ColumnsPrefixBytes(whole, index + 1);
  }

  /** Column `k` is the first one refused, for the reason `error`. */
  ghost predicate RefusedAt(fields: seq<Field>, columns: seq<Column>, rowCount: U64, limits: ResourceLimits,
                            k: nat, error: ErrorCode)
    requires AllBuilt(columns) && |columns| == |fields|
  {
    && k < |columns|
    && AllFit(fields, columns, rowCount, limits, k)
    && var total := ColumnsBytes(columns[..k]);
    && total <= limits.maximumDecodedBlockBytes
    && !(ColumnFits(fields[k], columns[k], rowCount, limits)
         && total + ColumnBytes(columns[k]) <= limits.maximumDecodedBlockBytes)
    && error == ColumnError(fields[k], columns[k], rowCount, limits, total)
  }

  /** Validates the columns in field order, threading the running total of decoded bytes. */
  method ValidateInOrder(fields: seq<Field>, columns: map<U32, Column>, rowCount: U64, limits: ResourceLimits,
                         ghost whole: seq<Column>)
    returns (r: Result<seq<Column>>)
    requires |whole| == |fields| && AllBuilt(whole)
    requires forall i | 0 <= i < |fields| :: fields[i].id in columns && columns[fields[i].id] == whole[i]
    ensures r.Ok? <==>
              AllFit(fields, whole, rowCount, limits, |whole|) && ColumnsBytes(whole) <= limits.maximumDecodedBlockBytes
    ensures r.Ok? ==> r.value == whole
    ensures r.Err? ==> exists k :: RefusedAt(fields, whole, rowCount, limits, k, r.error)
  {
    var decodedBytes := 0;
    var ordered: seq<Column> := [];
    for index := 0 to |fields|
      invariant ordered == whole[..index]
      invariant decodedBytes == ColumnsBytes(ordered) <= limits.maximumDecodedBlockBytes
      invariant AllFit(fields, whole, rowCount, limits, index)
    {
      var field := fields[index];
      if field.id !in columns {
        assert false;
      }
      var column := columns[field.id];
      assert Built(whole[index]);
      NextColumn(whole, index);
      var next := ValidateColumn(field, column, rowCount, limits, decodedBytes);
      if next.Err? {
        assert RefusedAt(fields, whole, rowCount, limits, index, next.error);
        return Err(next.error);
      }
      decodedBytes := next.value;
      ordered := ordered + [column];
    }
    assert whole[..|whole|] == whole;
    return Ok(ordered);
  }

  class BlockBuilder {
    const schema: Schema
    const id: U64
    const rowCount: U64
    var columns: map<U32, Column>
    var finished: bool

    ghost predicate Valid()
      reads this
    {
      && FinishedSchema(schema)
      && columns.Keys <= FieldIds(schema.fields)
      && forall k | k in columns :: Built(columns[k])
    }

    constructor (schema: Schema, id: U64, rowCount: U64)
      requires FinishedSchema(schema)
      ensures Valid() && columns == map[] && !finished
      ensures this.schema == schema && this.id == id && this.rowCount == rowCount
    {
      this.schema, this.id, this.rowCount := schema, id, rowCount;
      columns, finished := map[], false;
    }

    method FindField(fieldId: U32) returns (found: bool)
      ensures found <==> fieldId in FieldIds(schema.fields)
    {
      FieldIdMember(schema.fields, fieldId);
      for i := 0 to |schema.fields|
        invariant forall k | 0 <= k < i :: schema.fields[k].id != fieldId
      {
        if schema.fields[i].id == fieldId {
          return true;
        }
      }
      return false;
    }

    /** Each field of the schema takes one column, once. */
    method SetColumn(fieldId: U32, column: Column) returns (r: Status)
      requires Valid() && Built(column)
      modifies this
      ensures Valid() && finished == old(finished)
      ensures r == if old(finished) || fieldId in old(columns) then Err(InvalidState)
                   else if fieldId !in FieldIds(schema.fields) then Err(InvalidBlock)
                   else Ok(Unit)
      ensures columns == if r.Ok? then old(columns)[fieldId := column] else old(columns)
    {
      if finished || fieldId in columns {
        return Err(InvalidState);
      }
      var found := FindField(fieldId);
      if !found {
        return Err(InvalidBlock);
      }
      columns := columns[fieldId := column];
      return Ok(Unit);
    }

    /** The columns in field order, once there is one for every field. */
    ghost predicate OrderedFit(ordered: seq<Column>, limits: ResourceLimits)
      requires AllBuilt(ordered) && |ordered| == |schema.fields|
    {
      && AllFit(schema.fields, ordered, rowCount, limits, |ordered|)
      && ColumnsBytes(ordered) <= limits.maximumDecodedBlockBytes
    }

    ghost predicate Complete()
      reads this
    {
      forall i | 0 <= i < |schema.fields| :: schema.fields[i].id in columns
    }

    ghost predicate Publishable(limits: ResourceLimits)
      requires Valid()
      reads this
    {
      && Consistent(limits)
      && 0 < rowCount <= limits.maximumBlockRows
      && |columns| == |schema.fields|
      && Complete()
      && var ordered := Ordered(schema.fields, columns);
         AllBuilt(ordered) && OrderedFit(ordered, limits)
    }

    method ValidateColumns(limits: ResourceLimits) returns (r: Result<seq<Column>>)
      requires Valid()
      requires |columns| == |schema.fields|
      ensures Complete() && AllBuilt(Ordered(schema.fields, columns))
      ensures r.Ok? <==> OrderedFit(Ordered(schema.fields, columns), limits)
      ensures r.Ok? ==> r.value == Ordered(schema.fields, columns)
      ensures r.Err? ==> RefusedColumn(limits, r.error)
    {
      EveryFieldHasColumn(schema.fields, columns);
      r := ValidateInOrder(schema.fields, columns, rowCount, limits, Ordered(schema.fields, columns));
    }

    ghost predicate RefusedColumn(limits: ResourceLimits, error: ErrorCode)
      requires Complete() && AllBuilt(Ordered(schema.fields, columns))
      reads this
    {
      exists k :: RefusedAt(schema.fields, Ordered(schema.fields, columns), rowCount, limits, k, error)
    }

    /** Why a builder that is not finished yet refuses to publish: the first check that fails. */
    ghost predicate RefusedFor(limits: ResourceLimits, error: ErrorCode)
      requires Valid()
      reads this
    {
      if !Consistent(limits) then error == InvalidResourceLimit
      else if rowCount == 0 then error == InvalidBlock
      else if rowCount > limits.maximumBlockRows then error == LimitExceeded
      else if |columns| != |schema.fields| then error == InvalidBlock
      else Complete() && AllBuilt(Ordered(schema.fields, columns)) && RefusedColumn(limits, error)
    }

    /** A block is published exactly when every column fits its field and the total of bytes is within the limit. */
    method Finish(limits: ResourceLimits) returns (r: Result<Block>)
      requires Valid()
      modifies this
      ensures finished && columns == old(columns) && Valid()
      ensures r.Ok? <==> !old(finished) && Publishable(limits)
      ensures r.Ok? ==>
                && r.value == Block(schema, id, rowCount, Ordered(schema.fields, columns))
                && FinishedBlock(r.value, limits)
      ensures r.Err? ==> if old(finished) then r.error == InvalidState else RefusedFor(limits, r.error)
    {
      if finished {
        return Err(InvalidState);
      }
      finished := true;
      var status := ValidateResourceLimits(limits);
      if status.Err? {
        return Err(InvalidResourceLimit);
      }
      if rowCount == 0 {
        return Err(InvalidBlock);
      }
      if rowCount > limits.maximumBlockRows {
        return Err(LimitExceeded);
      }
      if |columns| != |schema.fields| {
        return Err(InvalidBlock);
      }
      var ordered := ValidateColumns(limits);
      if ordered.Err? {
        return Err(ordered.error);
      }
      return Ok(Block(schema, id, rowCount, ordered.value));
    }
  }

  // ---------- readers ----------

  /** The column of a field, found by scanning the schema. */
  method FindColumn(b: Block, fieldId: U32) returns (column: Option<Column>)
    requires |b.columns| == |b.schema.fields|
    ensures column == ColumnOf(b, fieldId)
  {
    for index := 0 to |b.schema.fields|
      invariant forall i | 0 <= i < index :: b.schema.fields[i].id != fieldId
    {
      if b.schema.fields[index].id == fieldId {
        FirstMatch(b, fieldId, 0, index);
        return Some(b.columns[index]);
      }
    }
    NoMatch(b, fieldId, 0);
    return None;
  }

  function ColumnFrom(b: Block, fieldId: U32, from: nat): Option<Column>
    requires from <= |b.schema.fields| == |b.columns|
    decreases |b.columns| - from
  {
    if from == |b.schema.fields| then None
    else if b.schema.fields[from].id == fieldId then Some(b.columns[from])
    else ColumnFrom(b, fieldId, from + 1)
  }

  function ColumnOf(b: Block, fieldId: U32): Option<Column>
    requires |b.schema.fields| == |b.columns|
  {
    ColumnFrom(b, fieldId, 0)
  }

  lemma {:induction false} FirstMatch(b: Block, fieldId: U32, from: nat, index: nat)
    requires from <= index < |b.schema.fields| == |b.columns|
    requires b.schema.fields[index].id == fieldId
    requires forall i | from <= i < index :: b.schema.fields[i].id != fieldId
    ensures ColumnFrom(b, fieldId, from) == Some(b.columns[index])
    decreases index - from
  {
    if from < index {
      FirstMatch(b, fieldId, from + 1, index);
    }
  }

  lemma {:induction false} NoMatch(b: Block, fieldId: U32, from: nat)
    requires from <= |b.schema.fields| == |b.columns|
    requires forall i | from <= i < |b.schema.fields| :: b.schema.fields[i].id != fieldId
    ensures ColumnFrom(b, fieldId, from) == None
    decreases |b.columns| - from
  {
    if from < |b.schema.fields| {
      NoMatch(b, fieldId, from + 1);
    }
  }

  /** Looking a field up answers the column that was set for it. */
  lemma FindsColumnSet(b: Block, columns: map<U32, Column>, i: nat)
    requires DistinctFields(b.schema.fields)
    requires forall k | 0 <= k < |b.schema.fields| :: b.schema.fields[k].id in columns
    requires b.columns == Ordered(b.schema.fields, columns)
    requires i < |b.schema.fields|
    ensures ColumnOf(b, b.schema.fields[i].id) == Some(columns[b.schema.fields[i].id])
  {
    FirstMatch(b, b.schema.fields[i].id, 0, i);
  }

  lemma {:induction false} ColumnOfBuilt(b: Block, fieldId: U32, from: nat)
    requires from <= |b.schema.fields| == |b.columns| && AllBuilt(b.columns)
    ensures ColumnFrom(b, fieldId, from).Some? ==> Built(ColumnFrom(b, fieldId, from).value)
    decreases |b.columns| - from
  {
    if from < |b.schema.fields| {
      ColumnOfBuilt(b, fieldId, from + 1);
    }
  }

  lemma VariableHasParts(c: Column)
    requires Built(c) && c.storage == VariableWidth
    ensures c.offsets.Some? && c.payload.Some?
  {
  }

  function ValueOf(c: Column, index: U64): Result<Bytes>
    requires Built(c)
  {
    if c.storage != VariableWidth then Err(InvalidConfiguration)
    else
      VariableHasParts(c);
      if index >= |c.offsets.value| - 1 then Err(InvalidConfiguration)
      else Ok(Slice(c.offsets.value, c.payload.value, index))
  }

  /** One variable-width value, or a refusal of a selection outside the column. */
  function VariableValue(b: Block, fieldId: U32, index: U64): Result<Bytes>
    requires |b.schema.fields| == |b.columns| && AllBuilt(b.columns)
  {
    var selected := ColumnOf(b, fieldId);
    ColumnOfBuilt(b, fieldId, 0);
    if selected.None? then Err(InvalidConfiguration) else ValueOf(selected.value, index)
  }

  lemma VariableFacts(f: Field, c: Column, rowCount: U64, limits: ResourceLimits)
    requires Built(c) && c.storage == VariableWidth && ColumnFits(f, c, rowCount, limits)
    ensures c.offsets.Some? && c.payload.Some?
    ensures c.rowCount == rowCount && c.columnType == f.fieldType
    ensures VariableFits(c, ValidRows(c, rowCount), limits.maximumRecordBytes)
  {
  }

  lemma FitsAt(fields: seq<Field>, columns: seq<Column>, rowCount: U64, limits: ResourceLimits, i: nat)
    requires AllBuilt(columns) && i < |columns| == |fields|
    requires AllFit(fields, columns, rowCount, limits, |columns|)
    ensures Built(columns[i]) && columns[i].rowCount == rowCount
    ensures ColumnFits(fields[i], columns[i], rowCount, limits)
  {
    assert Built(columns[i]);
    assert ColumnFits(fields[i], columns[i], rowCount, limits);
  }

  lemma FoundAt(b: Block, i: nat)
    requires DistinctFields(b.schema.fields) && i < |b.columns| == |b.schema.fields|
    ensures ColumnOf(b, b.schema.fields[i].id) == Some(b.columns[i])
  {
    FirstMatch(b, b.schema.fields[i].id, 0, i);
  }

  /** What a finished block says of its column `i`. */
  lemma ColumnAt(b: Block, limits: ResourceLimits, i: nat)
    requires FinishedBlock(b, limits) && i < |b.columns|
    ensures Built(b.columns[i]) && b.columns[i].rowCount == b.rowCount
    ensures ColumnFits(b.schema.fields[i], b.columns[i], b.rowCount, limits)
    ensures ColumnOf(b, b.schema.fields[i].id) == Some(b.columns[i])
  {
    FitsAt(b.schema.fields, b.columns, b.rowCount, limits, i);
    FoundAt(b, i);
  }

  /** Every column of a finished block agrees with its field and holds exactly its values, by kind code. */
  lemma FinishedColumn(b: Block, limits: ResourceLimits, i: nat)
    requires FinishedBlock(b, limits) && i < |b.columns|
    ensures var f, c := b.schema.fields[i], b.columns[i];
            && Built(c) && c.rowCount == b.rowCount && c.columnType == f.fieldType
            && (!f.nullable ==> c.validity == None)
            && var n := ValidRows(c, c.rowCount);
               match c.storage
               case FixedWidth => HoldsExactly(c.columnType, n, |c.values.value|)
               case BooleanBits => |c.values.value| == (n + 7) / 8 && PaddingClear(n, c.values.value)
               case VariableWidth => HoldsTexts(c, n, limits.maximumRecordBytes)
  {
    FitsAt(b.schema.fields, b.columns, b.rowCount, limits, i);
    FitsExactly(b.schema.fields[i], b.columns[i], b.rowCount, limits);
  }

  /** A finished block is within its limits, counting every byte its columns keep. */
  lemma FinishedWithinLimits(b: Block, limits: ResourceLimits)
    requires FinishedBlock(b, limits)
    ensures 0 < b.rowCount <= limits.maximumBlockRows && |b.columns| == |b.schema.fields|
    ensures |WriteMany(DecodedOf, b.columns)| <= limits.maximumDecodedBlockBytes
  {
    DecodedBytesCounted(b.columns);
  }

  ghost predicate StoresExactly(c: Column, rows: nat)
    requires Built(c)
  {
    match c.storage
    case FixedWidth => c.values.Some? && |c.values.value| == rows * FixedWidthBytes(c.columnType)
    case BooleanBits => c.values.Some? && |c.values.value| == (rows + 7) / 8 && PaddingClear(rows, c.values.value)
    case VariableWidth => c.offsets.Some? && |c.offsets.value| == rows + 1
  }

  lemma FittingStores(f: Field, c: Column, rowCount: U64, limits: ResourceLimits)
    requires Built(c) && ColumnFits(f, c, rowCount, limits)
    ensures c.rowCount == rowCount && StoresExactly(c, ValidRows(c, rowCount))
    ensures c.validity.None? ==> ValidRows(c, rowCount) == rowCount
  {
    ValidRowsCounted(c, rowCount);
  }

  /** The stored values of every column are exactly as many as its rows that hold one; all of them without a bitmap. */
  lemma StoredCount(b: Block, limits: ResourceLimits, i: nat)
    requires FinishedBlock(b, limits) && i < |b.columns|
    ensures Built(b.columns[i]) && b.columns[i].rowCount == b.rowCount
    ensures StoresExactly(b.columns[i], ValidRows(b.columns[i], b.rowCount))
    ensures b.columns[i].validity.None? ==> ValidRows(b.columns[i], b.rowCount) == b.rowCount
  {
    ColumnAt(b, limits, i);
    FittingStores(b.schema.fields[i], b.columns[i], b.rowCount, limits);
  }

  /** The first `n` values of a variable-width column, joined. */
  function Joined(offsets: seq<U64>, payload: Bytes, n: nat): Bytes
    decreases n
  {
    if n == 0 then [] else Joined(offsets, payload, n - 1) + Slice(offsets, payload, n - 1)
  }

  lemma Adjoin(payload: Bytes, middle: nat, end: nat)
    requires middle <= end <= |payload|
    ensures payload[..middle] + payload[middle..end] == payload[..end]
  {
  }

  lemma {:induction false} JoinedIsPrefix(offsets: seq<U64>, payload: Bytes, maximum: U64, n: nat)
    requires OffsetsOrdered(offsets, maximum) && offsets[|offsets| - 1] == |payload|
    requires n < |offsets|
    ensures offsets[n] <= |payload| && Joined(offsets, payload, n) == payload[..offsets[n]]
    decreases n
  {
    OffsetsWithin(offsets, maximum, n);
    if n > 0 {
      JoinedIsPrefix(offsets, payload, maximum, n - 1);
      assert offsets[n - 1] <= offsets[n];
      Adjoin(payload, offsets[n - 1], offsets[n]);
    }
  }

  lemma SliceInside(offsets: seq<U64>, payload: Bytes, maximum: U64, n: nat)
    requires OffsetsOrdered(offsets, maximum) && offsets[|offsets| - 1] == |payload|
    requires n + 1 < |offsets|
    ensures offsets[n] <= offsets[n + 1] <= |payload|
    ensures Slice(offsets, payload, n) == payload[offsets[n]..offsets[n + 1]]
    ensures |Slice(offsets, payload, n)| <= maximum
  {
    OffsetsWithin(offsets, maximum, n + 1);
    assert offsets[n + 1 - 1] <= offsets[n + 1] && offsets[n + 1] - offsets[n + 1 - 1] <= maximum;
  }

  /** The value at `index` is the payload between its two offsets, within the record limit and strict where promised. */
  ghost predicate Readable(c: Column, value: Bytes, index: nat, maximum: U64)
    requires Built(c) && c.storage == VariableWidth
  {
    var offsets, payload := c.offsets.value, c.payload.value;
    && index + 1 < |offsets| && offsets[index] <= offsets[index + 1] <= |payload|
    && value == payload[offsets[index]..offsets[index + 1]]
    && |value| <= maximum
    && (IsStrict(c.columnType) ==> IsUtf8(value))
  }

  lemma FittingReadable(f: Field, c: Column, rowCount: U64, limits: ResourceLimits, index: U64)
    requires Built(c) && c.storage == VariableWidth && ColumnFits(f, c, rowCount, limits)
    requires index < ValidRows(c, c.rowCount)
    ensures ValueOf(c, index).Ok? && Readable(c, ValueOf(c, index).value, index, limits.maximumRecordBytes)
  {
    VariableFacts(f, c, rowCount, limits);
    SliceInside(c.offsets.value, c.payload.value, limits.maximumRecordBytes, index);
  }

  /** Every in-range value of a finished block is readable. */
  lemma ValuesReadable(b: Block, limits: ResourceLimits, i: nat, index: U64)
    requires FinishedBlock(b, limits) && i < |b.columns| && b.columns[i].storage == VariableWidth
    requires Built(b.columns[i])
    requires index < ValidRows(b.columns[i], b.columns[i].rowCount)
    ensures b.columns[i].rowCount == b.rowCount
    ensures var value := VariableValue(b, b.schema.fields[i].id, index);
            value.Ok? && Readable(b.columns[i], value.value, index, limits.maximumRecordBytes)
  {
    ColumnAt(b, limits, i);
    FittingReadable(b.schema.fields[i], b.columns[i], b.rowCount, limits, index);
  }

  lemma FittingCovered(f: Field, c: Column, rowCount: U64, limits: ResourceLimits)
    requires Built(c) && c.storage == VariableWidth && ColumnFits(f, c, rowCount, limits)
    ensures Joined(c.offsets.value, c.payload.value, ValidRows(c, c.rowCount)) == c.payload.value
  {
    VariableFacts(f, c, rowCount, limits);
    JoinedIsPrefix(c.offsets.value, c.payload.value, limits.maximumRecordBytes, ValidRows(c, c.rowCount));
    assert c.payload.value[..|c.payload.value|] == c.payload.value;
  }

  /** Joined in order, the values of a variable-width column are its whole payload: none is lost, none overlaps. */
  lemma ValuesCoverPayload(b: Block, limits: ResourceLimits, i: nat)
    requires FinishedBlock(b, limits) && i < |b.columns| && b.columns[i].storage == VariableWidth
    ensures var c := b.columns[i];
            && Built(c) && c.rowCount == b.rowCount
            && Joined(c.offsets.value, c.payload.value, ValidRows(c, c.rowCount)) == c.payload.value
  {
    ColumnAt(b, limits, i);
    FittingCovered(b.schema.fields[i], b.columns[i], b.rowCount, limits);
  }

  ghost predicate Selects(b: Block, i: nat, fieldId: U32, index: U64)
    requires AllBuilt(b.columns) && |b.columns| == |b.schema.fields|
  {
    && i < |b.columns| && b.schema.fields[i].id == fieldId && b.columns[i].storage == VariableWidth
    && index < ValidRows(b.columns[i], b.columns[i].rowCount)
  }

  lemma SelectionAt(b: Block, limits: ResourceLimits, i: nat, index: U64)
    requires FinishedBlock(b, limits) && i < |b.columns|
    ensures VariableValue(b, b.schema.fields[i].id, index).Ok? <==> Selects(b, i, b.schema.fields[i].id, index)
  {
    ColumnAt(b, limits, i);
    if b.columns[i].storage == VariableWidth {
      VariableFacts(b.schema.fields[i], b.columns[i], b.rowCount, limits);
    }
  }

  /**
   * A selection succeeds exactly when it names a variable-width column and one of its stored values, and is
   * otherwise refused as an invalid configuration.
   */
  lemma SelectionExact(b: Block, limits: ResourceLimits, fieldId: U32, index: U64)
    requires FinishedBlock(b, limits)
    ensures VariableValue(b, fieldId, index).Ok? <==> exists i :: Selects(b, i, fieldId, index)
    ensures VariableValue(b, fieldId, index).Err? ==> VariableValue(b, fieldId, index) == Err(InvalidConfiguration)
  {
    if i :| 0 <= i < |b.schema.fields| && b.schema.fields[i].id == fieldId {
      SelectionAt(b, limits, i, index);
      forall j: nat | Selects(b, j, fieldId, index)
        ensures VariableValue(b, fieldId, index).Ok?
      {
        SelectionAt(b, limits, j, index);
      }
    } else {
      NoMatch(b, fieldId, 0);
    }
  }
}
