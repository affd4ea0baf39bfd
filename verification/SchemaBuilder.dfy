/** Field and schema builders: validation, aggregate limits and publication of canonical bytes. */
module SchemaBuilders {
  import opened Outcomes
  import opened Endian
  import opened Utf8
  import opened LogicalTypes
  import opened SchemaMetadata
  import opened SchemaCanonical
  import opened SchemaDecoder
  import opened Fingerprints
  import opened Limits

  // ---------- sizes ----------

  function MetadataBytes(m: Metadata): nat
    decreases |m|
  {
    if |m| == 0 then 0 else MetadataBytes(m[..|m| - 1]) + |m[|m| - 1].key| + |m[|m| - 1].value|
  }

  function FieldBytes(f: Field): nat {
    |f.name| + MetadataBytes(f.metadata)
  }

  function FieldsBytes(fields: seq<Field>): nat
    decreases |fields|
  {
    if |fields| == 0 then 0 else FieldsBytes(fields[..|fields| - 1]) + FieldBytes(fields[|fields| - 1])
  }

  // ---------- what the limit counts ----------

  function EntryText(e: Entry): Bytes {
    e.key + e.value
  }

  /** The name of a field and all keys and values of its metadata, one after the other. */
  function FieldText(f: Field): Bytes {
    f.name + WriteMany(EntryText, f.metadata)
  }

  lemma {:induction false} WriteManyAppend<T>(write: T -> Bytes, items: seq<T>, last: T)
    ensures WriteMany(write, items + [last]) == WriteMany(write, items) + write(last)
    decreases |items|
  {
    if |items| > 0 {
      assert (items + [last])[1..] == items[1..] + [last];
      WriteManyAppend(write, items[1..], last);
    }
  }

  lemma {:induction false} MetadataBytesCounted(m: Metadata)
    ensures MetadataBytes(m) == |WriteMany(EntryText, m)|
    decreases |m|
  {
    if |m| > 0 {
      var n := |m| - 1;
      MetadataBytesCounted(m[..n]);
      WriteManyAppend(EntryText, m[..n], m[n]);
      assert m[..n] + [m[n]] == m;
    }
  }

  lemma {:induction false} FieldsBytesCounted(fields: seq<Field>)
    ensures FieldsBytes(fields) == |WriteMany(FieldText, fields)|
    decreases |fields|
  {
    if |fields| > 0 {
      var n := |fields| - 1;
      FieldsBytesCounted(fields[..n]);
      MetadataBytesCounted(fields[n].metadata);
      WriteManyAppend(FieldText, fields[..n], fields[n]);
      assert fields[..n] + [fields[n]] == fields;
    }
  }

  /** The metadata limit counts every field name, and every key and value of every field and of the schema. */
  lemma LimitCountsEverything(fields: seq<Field>, metadata: Metadata)
    ensures SchemaBytes(fields, metadata) == |WriteMany(FieldText, fields) + WriteMany(EntryText, metadata)|
  {
    FieldsBytesCounted(fields);
    MetadataBytesCounted(metadata);
  }

  /** Sizes a vector can have. */
  predicate Addressable(m: Metadata) {
    forall i | 0 <= i < |m| :: |m[i].key| < TWO_TO_64 && |m[i].value| < TWO_TO_64
  }

  lemma {:induction false} PrefixBytes(m: Metadata, n: nat)
    requires n <= |m|
    ensures MetadataBytes(m[..n]) <= MetadataBytes(m)
    decreases |m|
  {
    if n < |m| {
      assert m[..n] == m[..|m| - 1][..n];
      PrefixBytes(m[..|m| - 1], n);
    } else {
      assert m[..n] == m;
    }
  }

  /** The exact sum, or an overflow report when it does not fit in 64 bits. */
  method MetadataSize(m: Metadata) returns (r: Result<U64>)
    requires Addressable(m)
    ensures r == if MetadataBytes(m) < TWO_TO_64 then Ok(MetadataBytes(m)) else Err(ArithmeticOverflow)
  {
    var total: U64 := 0;
    for i := 0 to |m|
      invariant total == MetadataBytes(m[..i])
    {
      assert m[..i + 1][..i] == m[..i];
      PrefixBytes(m, i + 1);
      var entry := CheckedAdd(|m[i].key|, |m[i].value|);
      if entry.Err? {
        return Err(ArithmeticOverflow);
      }
      var next := CheckedAdd(total, entry.value);
      if next.Err? {
        return Err(ArithmeticOverflow);
      }
      total := next.value;
    }
    assert m[..|m|] == m;
    return Ok(total);
  }

  /** Adds a map's bytes to a running total and accepts only what stays within the limit. */
  method ValidateMetadata(m: Metadata, limit: U64, aggregate: U64) returns (r: Result<U64>)
    requires Addressable(m)
    ensures r == if aggregate + MetadataBytes(m) <= limit then Ok(aggregate + MetadataBytes(m))
                 else Err(Excess(aggregate + MetadataBytes(m)))
  {
    var size := MetadataSize(m);
    if size.Err? {
      return Err(ArithmeticOverflow);
    }
    var next := CheckedAdd(aggregate, size.value);
    if next.Err? {
      return Err(ArithmeticOverflow);
    }
    if next.value > limit {
      return Err(LimitExceeded);
    }
    return Ok(next.value);
  }

  // ---------- serialization ----------

  /** The growing output of the serializers. */
  class ByteVector {
    var bytes: Bytes

    constructor ()
      ensures bytes == []
    {
      bytes := [];
    }

    method PushBack(b: Byte)
      modifies this
      ensures bytes == old(bytes) + [b]
    {
      bytes := bytes + [b];
    }

    method Insert(b: Bytes)
      modifies this
      ensures bytes == old(bytes) + b
    {
      bytes := bytes + b;
    }
  }

  lemma NextDigit(bits: nat, width: nat)
    requires width > 0
    ensures EncodeLe(bits, width) == [(bits % 0x100) as bv8] + EncodeLe(bits / 0x100, width - 1)
  {
  }

  method AppendInteger(output: ByteVector, value: nat, width: nat)
    modifies output
    ensures output.bytes == old(output.bytes) + EncodeLe(value, width)
  {
    var bits := value;
    ghost var written: Bytes := [];
    for index := 0 to width
      invariant output.bytes == old(output.bytes) + written
      invariant written + EncodeLe(bits, width - index) == EncodeLe(value, width)
    {
      NextDigit(bits, width - index);
      output.PushBack((bits % 0x100) as bv8);
      written := written + [(bits % 0x100) as bv8];
      bits := bits / 0x100;
    }
    assert written + [] == written;
  }

  method AppendBytes(output: ByteVector, b: Bytes)
    modifies output
    ensures output.bytes == old(output.bytes) + BytesOf(b)
  {
    ghost var start := output.bytes;
    AppendInteger(output, |b|, 8);
    output.Insert(b);
    Regroup3(start, EncodeLe(|b|, 8), b);
  }

  lemma NextEntry(m: Metadata, i: nat)
    requires i < |m|
    ensures EntriesOf(m[i..]) == BytesOf(m[i].key) + BytesOf(m[i].value) + EntriesOf(m[i + 1..])
  {
    assert m[i..][1..] == m[i + 1..];
  }

  /** Moving one piece from what is still to be written to what has been written. */
  lemma WriteOne(start: Bytes, written: Bytes, piece: Bytes, rest: Bytes, after: Bytes, whole: Bytes)
    requires written + rest == whole && rest == piece + after
    ensures (start + written) + piece == start + (written + piece)
    ensures (written + piece) + after == whole
  {
  }

  method AppendEntry(output: ByteVector, e: Entry)
    modifies output
    ensures output.bytes == old(output.bytes) + (BytesOf(e.key) + BytesOf(e.value))
  {
    ghost var start := output.bytes;
    AppendBytes(output, e.key);
    AppendBytes(output, e.value);
    Regroup3(start, BytesOf(e.key), BytesOf(e.value));
  }

  method AppendEntries(output: ByteVector, m: Metadata)
    modifies output
    ensures output.bytes == old(output.bytes) + EntriesOf(m)
  {
    ghost var start := output.bytes;
    ghost var written: Bytes := [];
    assert m[0..] == m;
    for i := 0 to |m|
      invariant output.bytes == start + written
      invariant written + EntriesOf(m[i..]) == EntriesOf(m)
    {
      ghost var entry := BytesOf(m[i].key) + BytesOf(m[i].value);
      NextEntry(m, i);
      WriteOne(start, written, entry, EntriesOf(m[i..]), EntriesOf(m[i + 1..]), EntriesOf(m));
      AppendEntry(output, m[i]);
      written := written + entry;
    }
    assert written + [] == written;
  }

  method AppendMetadata(output: ByteVector, m: Metadata)
    modifies output
    ensures output.bytes == old(output.bytes) + MetadataOf(m)
  {
    ghost var start := output.bytes;
    AppendInteger(output, |m|, 8);
    AppendEntries(output, m);
    Regroup3(start, EncodeLe(|m|, 8), EntriesOf(m));
  }

  method AppendDetails(output: ByteVector, p: Parameters)
    modifies output
    ensures output.bytes == old(output.bytes) + DetailsOf(p)
  {
    ghost var start := output.bytes;
    match p {
      case NoParameters =>
      case DecimalParameters(precision, scale) =>
        AppendInteger(output, precision, 1);
        AppendInteger(output, Unsigned16(scale), 2);
        Regroup3(start, EncodeLe(precision, 1), EncodeLe(Unsigned16(scale), 2));
      case TimeParameters(unit) =>
        AppendInteger(output, unit, 1);
      case TimestampParameters(unit, timezone) =>
        AppendInteger(output, unit, 1);
        AppendInteger(output, timezone, 1);
        Regroup3(start, EncodeLe(unit, 1), EncodeLe(timezone, 1));
      case StringParameters(validation) =>
        AppendInteger(output, validation, 1);
      case FixedBinaryParameters(width) =>
        AppendInteger(output, width, 4);
    }
  }

  lemma Gather3(s: Bytes, a: Bytes, b: Bytes, c: Bytes)
    ensures ((s + a) + b) + c == s + (a + b + c)
  {
  }

  lemma Gather5(s: Bytes, a: Bytes, b: Bytes, c: Bytes, d: Bytes, e: Bytes)
    ensures ((((s + a) + b) + c) + d) + e == s + (a + b + c + d + e)
  {
  }

  method AppendType(output: ByteVector, t: LogicalType)
    modifies output
    ensures output.bytes == old(output.bytes) + TypeOf(t)
  {
    ghost var start := output.bytes;
    AppendInteger(output, t.kind, 1);
    AppendInteger(output, IndexOf(t.parameters), 1);
    AppendDetails(output, t.parameters);
    Gather3(start, EncodeLe(t.kind, 1), EncodeLe(IndexOf(t.parameters), 1), DetailsOf(t.parameters));
  }

  method AppendField(output: ByteVector, f: Field)
    modifies output
    ensures output.bytes == old(output.bytes) + FieldOf(f)
  {
    ghost var start := output.bytes;
    AppendInteger(output, f.id, 4);
    AppendBytes(output, f.name);
    AppendType(output, f.fieldType);
    AppendInteger(output, NullableCode(f), 1);
    AppendMetadata(output, f.metadata);
    Gather5(start, EncodeLe(f.id, 4), BytesOf(f.name), TypeOf(f.fieldType), EncodeLe(NullableCode(f), 1),
            MetadataOf(f.metadata));
  }

  lemma NextField(fields: seq<Field>, i: nat)
    requires i < |fields|
    ensures FieldsOf(fields[i..]) == FieldOf(fields[i]) + FieldsOf(fields[i + 1..])
  {
    assert fields[i..][1..] == fields[i + 1..];
  }

  method AppendFields(output: ByteVector, fields: seq<Field>)
    modifies output
    ensures output.bytes == old(output.bytes) + FieldsOf(fields)
  {
    ghost var start := output.bytes;
    ghost var written: Bytes := [];
    assert fields[0..] == fields;
    for i := 0 to |fields|
      invariant output.bytes == start + written
      invariant written + FieldsOf(fields[i..]) == FieldsOf(fields)
    {
      ghost var piece := FieldOf(fields[i]);
      NextField(fields, i);
      WriteOne(start, written, piece, FieldsOf(fields[i..]), FieldsOf(fields[i + 1..]), FieldsOf(fields));
      AppendField(output, fields[i]);
      written := written + piece;
    }
    assert written + [] == written;
  }

  /** The canonical bytes of a schema, appended piece by piece; whoever knows the format reads the schema back. */
  method Serialize(fields: seq<Field>, metadata: Metadata) returns (canonical: Bytes)
    ensures canonical == CanonicalBytes(fields, metadata)
    ensures |fields| < TWO_TO_32 && SizedFields(fields) && SizedMetadata(metadata) ==>
              ReadSchema(canonical) == Some(Content(fields, metadata))
  {
    var output := new ByteVector();
    output.Insert(PREFIX);
    assert output.bytes == PREFIX;
    AppendInteger(output, CountCode(|fields|), 4);
    AppendFields(output, fields);
    AppendMetadata(output, metadata);
    canonical := output.bytes;
    if |fields| < TWO_TO_32 && SizedFields(fields) && SizedMetadata(metadata) {
      CanonicalRead(fields, metadata);
    }
  }

  // ---------- fields ----------

  ghost predicate ValidKeys(m: Metadata) {
    forall i | 0 <= i < |m| :: ValidKey(m[i].key)
  }

  /** What every field that left a field builder satisfies. */
  ghost predicate FinishedField(f: Field) {
    && f.id != 0 && |f.name| > 0 && IsUtf8(f.name) && |f.name| < TWO_TO_64
    && Created(f.fieldType)
    && Sorted(f.metadata) && ValidKeys(f.metadata) && Addressable(f.metadata)
  }

  lemma InsertKeepsKeys(m: Metadata, e: Entry)
    requires ValidKeys(m) && Addressable(m)
    requires ValidKey(e.key) && |e.key| < TWO_TO_64 && |e.value| < TWO_TO_64
    ensures ValidKeys(InsertAt(m, e)) && Addressable(InsertAt(m, e))
  {
    var n := InsertAt(m, e);
    forall i | 0 <= i < |n|
      ensures ValidKey(n[i].key) && |n[i].key| < TWO_TO_64 && |n[i].value| < TWO_TO_64
    {
      assert n[i] in n;
      InsertMembers(m, e, n[i]);
    }
  }

  class FieldBuilder {
    const id: U32
    const name: Bytes
    const fieldType: LogicalType
    const nullable: bool
    var metadata: Metadata
    var finished: bool

    ghost predicate Valid()
      reads this
    {
      && |name| < TWO_TO_64 && Created(fieldType)
      && Sorted(metadata) && ValidKeys(metadata) && Addressable(metadata)
    }

    constructor (id: U32, name: Bytes, fieldType: LogicalType, nullable: bool)
      requires |name| < TWO_TO_64 && Created(fieldType)
      ensures Valid() && metadata == [] && !finished
      ensures this.id == id && this.name == name && this.fieldType == fieldType && this.nullable == nullable
    {
      this.id, this.name, this.fieldType, this.nullable := id, name, fieldType, nullable;
      metadata, finished := [], false;
    }

    method AddMetadata(key: Bytes, value: Bytes) returns (r: Status)
      requires Valid() && |key| < TWO_TO_64 && |value| < TWO_TO_64
      modifies this
      ensures Valid() && finished == old(finished)
      ensures r == if old(finished) then Err(InvalidState)
                   else if ValidKey(key) && key !in old(AsMap(metadata)) then Ok(Unit) else Err(InvalidSchema)
      ensures AsMap(metadata) == if r.Ok? then old(AsMap(metadata))[key := value] else old(AsMap(metadata))
    {
      if finished {
        return Err(InvalidState);
      }
      var status, grown := AddMetadataValue(metadata, key, value);
      if status.Ok? {
        InsertKeepsKeys(metadata, Entry(key, value));
      }
      metadata := grown;
      return status;
    }

    /** A field is published once, and only with an identity, a strict name and metadata within the limit. */
    method Finish(limits: ResourceLimits) returns (r: Result<Field>)
      requires Valid()
      modifies this
      ensures finished && metadata == old(metadata)
      ensures r.Ok? <==>
                && !old(finished) && id != 0 && |name| > 0 && IsUtf8(name)
                && |name| + MetadataBytes(metadata) <= limits.maximumMetadataBytes
      ensures r.Ok? ==> r.value == Field(id, name, fieldType, nullable, metadata) && FinishedField(r.value)
      ensures r.Err? ==> r.error == if old(finished) then InvalidState
                                    else if id == 0 || |name| == 0 || !IsUtf8(name) then InvalidSchema
                                    else Excess(|name| + MetadataBytes(metadata))
    {
      if finished {
        return Err(InvalidState);
      }
      finished := true;
      var utf8 := ValidUtf8(name);
      if id == 0 || |name| == 0 || !utf8 {
        return Err(InvalidSchema);
      }
      var total := ValidateMetadata(metadata, limits.maximumMetadataBytes, |name|);
      if total.Err? {
        return Err(total.error);
      }
      return Ok(Field(id, name, fieldType, nullable, metadata));
    }
  }

  // ---------- schemas ----------

  /** An immutable schema with its canonical bytes and fingerprint. */
  datatype Schema = Schema(fields: seq<Field>, metadata: Metadata, canonical: Bytes, fingerprint: Bytes)

  predicate DistinctFields(fields: seq<Field>) {
    forall i, j | 0 <= i < j < |fields| :: fields[i].id != fields[j].id && fields[i].name != fields[j].name
  }

  function SchemaBytes(fields: seq<Field>, metadata: Metadata): nat {
    MetadataBytes(metadata) + FieldsBytes(fields)
  }

  ghost predicate AllFinished(fields: seq<Field>) {
    forall i {:trigger FinishedField(fields[i])} | 0 <= i < |fields| :: FinishedField(fields[i])
  }

  ghost predicate FinishedSchema(s: Schema) {
    && 0 < |s.fields| < TWO_TO_32
    && AllFinished(s.fields)
    && DistinctFields(s.fields)
    && Sorted(s.metadata) && ValidKeys(s.metadata)
    && SchemaBytes(s.fields, s.metadata) < TWO_TO_64
    && s.canonical == CanonicalBytes(s.fields, s.metadata)
    && s.fingerprint == Fingerprint(s.canonical)
  }

  lemma {:induction false} FieldsPrefixBytes(fields: seq<Field>, n: nat)
    requires n <= |fields|
    ensures FieldsBytes(fields[..n]) <= FieldsBytes(fields)
    decreases |fields|
  {
    if n < |fields| {
      assert fields[..n] == fields[..|fields| - 1][..n];
      FieldsPrefixBytes(fields[..|fields| - 1], n);
    } else {
      assert fields[..n] == fields;
    }
  }

  predicate RepeatsEarlier(fields: seq<Field>, index: nat)
    requires index < |fields|
  {
    exists j | 0 <= j < index :: fields[j].id == fields[index].id || fields[j].name == fields[index].name
  }

  /** Field `k` is the first one refused: it repeats an earlier one, or its bytes are too many. */
  predicate FieldRefusedAt(fields: seq<Field>, limit: U64, start: nat, k: nat, error: ErrorCode) {
    && k < |fields|
    && DistinctFields(fields[..k]) && start + FieldsBytes(fields[..k]) <= limit
    && if RepeatsEarlier(fields, k) then error == InvalidSchema
       else start + FieldsBytes(fields[..k + 1]) > limit && error == Excess(start + FieldsBytes(fields[..k + 1]))
  }

  lemma OneMoreField(fields: seq<Field>, index: nat)
    requires index < |fields|
    ensures DistinctFields(fields[..index + 1]) <==> DistinctFields(fields[..index]) && !RepeatsEarlier(fields, index)
    ensures FieldsBytes(fields[..index + 1]) == FieldsBytes(fields[..index]) + FieldBytes(fields[index])
    ensures DistinctFields(fields) ==> !RepeatsEarlier(fields, index)
  {
    assert fields[..index + 1][..index] == fields[..index];
    if DistinctFields(fields[..index]) && !RepeatsEarlier(fields, index) {
      forall i, j | 0 <= i < j < index + 1
        ensures fields[i].id != fields[j].id && fields[i].name != fields[j].name
      {
        if j < index {
          assert fields[..index][i] == fields[i] && fields[..index][j] == fields[j];
        }
      }
    }
    if DistinctFields(fields[..index + 1]) {
      forall i, j | 0 <= i < j < index + 1
        ensures fields[i].id != fields[j].id && fields[i].name != fields[j].name
      {
        assert fields[..index + 1][i] == fields[i] && fields[..index + 1][j] == fields[j];
      }
    }
  }

  class SchemaBuilder {
    var fields: seq<Field>
    var metadata: Metadata
    var finished: bool

    ghost predicate Valid()
      reads this
    {
      && AllFinished(fields)
      && Sorted(metadata) && ValidKeys(metadata) && Addressable(metadata)
    }

    constructor ()
      ensures Valid() && fields == [] && metadata == [] && !finished
    {
      fields, metadata, finished := [], [], false;
    }

    method AddField(field: Field) returns (r: Status)
      requires Valid() && FinishedField(field)
      modifies this
      ensures Valid() && finished == old(finished) && metadata == old(metadata)
      ensures r == if old(finished) then Err(InvalidState) else Ok(Unit)
      ensures fields == if r.Ok? then old(fields) + [field] else old(fields)
    {
      if finished {
        return Err(InvalidState);
      }
      fields := fields + [field];
      return Ok(Unit);
    }

    method AddMetadata(key: Bytes, value: Bytes) returns (r: Status)
      requires Valid() && |key| < TWO_TO_64 && |value| < TWO_TO_64
      modifies this
      ensures Valid() && finished == old(finished) && fields == old(fields)
      ensures r == if old(finished) then Err(InvalidState)
                   else if ValidKey(key) && key !in old(AsMap(metadata)) then Ok(Unit) else Err(InvalidSchema)
      ensures AsMap(metadata) == if r.Ok? then old(AsMap(metadata))[key := value] else old(AsMap(metadata))
    {
      if finished {
        return Err(InvalidState);
      }
      var status, grown := AddMetadataValue(metadata, key, value);
      if status.Ok? {
        InsertKeepsKeys(metadata, Entry(key, value));
      }
      metadata := grown;
      return status;
    }

    /** Whether an earlier field has the identifier or the name of field `index`. */
    method Repeats(index: nat) returns (repeats: bool)
      requires index < |fields|
      ensures repeats <==> RepeatsEarlier(fields, index)
    {
      for j := 0 to index
        invariant forall k | 0 <= k < j :: fields[k].id != fields[index].id && fields[k].name != fields[index].name
      {
        if fields[j].id == fields[index].id || fields[j].name == fields[index].name {
          return true;
        }
      }
      return false;
    }

    /** Adds one field's name and metadata to the running total. */
    method AddFieldBytes(field: Field, total: U64, limit: U64) returns (r: Result<U64>)
      requires FinishedField(field)
      ensures r == if total + FieldBytes(field) <= limit then Ok(total + FieldBytes(field))
                   else Err(Excess(total + FieldBytes(field)))
    {
      var named := CheckedAdd(total, |field.name|);
      if named.Err? {
        return Err(ArithmeticOverflow);
      }
      r := ValidateMetadata(field.metadata, limit, named.value);
    }

    /** Distinct fields whose bytes, together with the schema's own, stay within the limit. */
    method CheckFields(limit: U64, start: U64) returns (r: Status)
      requires Valid()
      requires start <= limit
      ensures r.Ok? <==> DistinctFields(fields) && start + FieldsBytes(fields) <= limit
      ensures r.Err? ==> exists k :: FieldRefusedAt(fields, limit, start, k, r.error)
    {
      var total := start;
      for index := 0 to |fields|
        invariant DistinctFields(fields[..index])
        invariant total == start + FieldsBytes(fields[..index])
        invariant total <= limit
      {
        OneMoreField(fields, index);
        FieldsPrefixBytes(fields, index + 1);
        var repeats := Repeats(index);
        if repeats {
          assert FieldRefusedAt(fields, limit, start, index, InvalidSchema);
          return Err(InvalidSchema);
        }
        var next := AddFieldBytes(fields[index], total, limit);
        if next.Err? {
          assert FieldRefusedAt(fields, limit, start, index, next.error);
          return Err(next.error);
        }
        total := next.value;
      }
      assert fields[..|fields|] == fields;
      return Ok(Unit);
    }

    /** Why a builder that is not finished yet refuses to publish: the first check that fails. */
    ghost predicate RefusedFor(limits: ResourceLimits, error: ErrorCode)
      reads this
    {
      var limit, own := limits.maximumMetadataBytes, MetadataBytes(metadata);
      if !Consistent(limits) then error == InvalidResourceLimit
      else if |fields| == 0 then error == InvalidSchema
      else if |fields| > limits.maximumFields then error == LimitExceeded
      else if own > limit then error == Excess(own)
      else exists k :: FieldRefusedAt(fields, limit, own, k, error)
    }

    ghost predicate Publishable(limits: ResourceLimits)
      reads this
    {
      && Consistent(limits)
      && 0 < |fields| <= limits.maximumFields
      && DistinctFields(fields)
      && SchemaBytes(fields, metadata) <= limits.maximumMetadataBytes
    }

    /** Every check that precedes serialization. */
    method Validate(limits: ResourceLimits) returns (r: Status)
      requires Valid()
      ensures r.Ok? <==> Publishable(limits)
      ensures r.Err? ==> RefusedFor(limits, r.error)
    {
      var status := ValidateResourceLimits(limits);
      if status.Err? {
        return Err(InvalidResourceLimit);
      }
      if |fields| == 0 || |fields| > limits.maximumFields {
        return Err(if |fields| == 0 then InvalidSchema else LimitExceeded);
      }
      var metadataBytes := ValidateMetadata(metadata, limits.maximumMetadataBytes, 0);
      if metadataBytes.Err? {
        return Err(metadataBytes.error);
      }
      r := CheckFields(limits.maximumMetadataBytes, metadataBytes.value);
    }

    /** A schema is published once, and exactly when it is within every limit and its fields are distinct. */
    method Finish(limits: ResourceLimits) returns (r: Result<Schema>)
      requires Valid()
      modifies this
      ensures finished && fields == old(fields) && metadata == old(metadata)
      ensures r.Ok? <==> !old(finished) && Publishable(limits)
      ensures r.Ok? ==> FinishedSchema(r.value) && r.value.fields == fields && r.value.metadata == metadata
      ensures r.Err? ==> if old(finished) then r.error == InvalidState else RefusedFor(limits, r.error)
    {
      if finished {
        return Err(InvalidState);
      }
      finished := true;
      var checked := Validate(limits);
      if checked.Err? {
        return Err(checked.error);
      }
      var canonical := Serialize(fields, metadata);
      var fingerprint := MakeFingerprint(canonical);
      return Ok(Schema(fields, metadata, canonical, fingerprint[..]));
    }
  }

  // ---------- canonical bytes are the identity of a schema ----------

  lemma KeyNotEmpty(key: Bytes)
    requires ValidKey(key)
    ensures |key| > 0
  {
    var space: Bytes, name: Bytes :| SplitsAt(key, space, name);
  }

  /** Keys are not empty, so a map has no more entries than bytes. */
  lemma {:induction false} EntriesWithinBytes(m: Metadata)
    requires ValidKeys(m)
    ensures |m| <= MetadataBytes(m)
    ensures forall i | 0 <= i < |m| :: |m[i].key| + |m[i].value| <= MetadataBytes(m)
    decreases |m|
  {
    if |m| > 0 {
      var n := |m| - 1;
      assert forall i | 0 <= i < n :: m[..n][i] == m[i];
      EntriesWithinBytes(m[..n]);
      KeyNotEmpty(m[n].key);
    }
  }

  lemma {:induction false} FieldWithinBytes(fields: seq<Field>, i: nat)
    requires i < |fields|
    ensures FieldBytes(fields[i]) <= FieldsBytes(fields)
    decreases |fields|
  {
    var n := |fields| - 1;
    if i < n {
      FieldWithinBytes(fields[..n], i);
    }
  }

  lemma FinishedSchemaSized(s: Schema)
    requires FinishedSchema(s)
    ensures SizedFields(s.fields) && SizedMetadata(s.metadata)
  {
    EntriesWithinBytes(s.metadata);
    forall i | 0 <= i < |s.fields|
      ensures SizedField(s.fields[i])
    {
      assert FinishedField(s.fields[i]);
      FieldWithinBytes(s.fields, i);
      EntriesWithinBytes(s.fields[i].metadata);
    }
  }

  /** Every schema a builder published reads back, by the format alone, as its own content. */
  lemma PublishedSchemaReads(s: Schema)
    requires FinishedSchema(s)
    ensures ReadSchema(s.canonical) == Some(Content(s.fields, s.metadata))
  {
    FinishedSchemaSized(s);
    CanonicalRead(s.fields, s.metadata);
  }

  /** In a published schema an identifier or a name belongs to one field. */
  lemma FieldsUnique(s: Schema, i: nat, j: nat)
    requires FinishedSchema(s) && i < |s.fields| && j < |s.fields|
    requires s.fields[i].id == s.fields[j].id || s.fields[i].name == s.fields[j].name
    ensures i == j
  {
  }

  /** Two fields say the same, with metadata compared as maps. */
  predicate SameField(f: Field, g: Field) {
    && f.id == g.id && f.name == g.name && f.fieldType == g.fieldType && f.nullable == g.nullable
    && AsMap(f.metadata) == AsMap(g.metadata)
  }

  predicate SameContent(s: Schema, t: Schema) {
    && |s.fields| == |t.fields|
    && (forall i | 0 <= i < |s.fields| :: SameField(s.fields[i], t.fields[i]))
    && AsMap(s.metadata) == AsMap(t.metadata)
  }

  lemma SameContentIsEqual(s: Schema, t: Schema)
    requires FinishedSchema(s) && FinishedSchema(t) && SameContent(s, t)
    ensures s.fields == t.fields && s.metadata == t.metadata
  {
    TraversalUnique(s.metadata, t.metadata);
    forall i | 0 <= i < |s.fields|
      ensures s.fields[i] == t.fields[i]
    {
      assert FinishedField(s.fields[i]) && FinishedField(t.fields[i]);
      assert SameField(s.fields[i], t.fields[i]);
      TraversalUnique(s.fields[i].metadata, t.fields[i].metadata);
    }
  }

  /**
   * Two finished schemas have equal canonical bytes exactly when they agree on every ordered field and
   * on every metadata map; in which order metadata was added makes no difference.
   */
  lemma CanonicalIdentity(s: Schema, t: Schema)
    requires FinishedSchema(s) && FinishedSchema(t)
    ensures s.canonical == t.canonical <==> SameContent(s, t)
    ensures SameContent(s, t) ==> s.fingerprint == t.fingerprint
  {
    if s.canonical == t.canonical {
      FinishedSchemaSized(s);
      FinishedSchemaSized(t);
      CanonicalInjective(s.fields, s.metadata, t.fields, t.metadata);
    }
    if SameContent(s, t) {
      SameContentIsEqual(s, t);
    }
  }
}
