/** Canonical schema bytes: the length-prefixed serialization. */
module SchemaCanonical {
  import opened Outcomes
  import opened Endian
  import opened LogicalTypes
  import opened SchemaMetadata

  datatype Field = Field(id: U32, name: Bytes, fieldType: LogicalType, nullable: bool, metadata: Metadata)

  /** S, C, H and the version byte. */
  const PREFIX: Bytes := [0x53, 0x43, 0x48, 0x01]

  // ---------- what is serialized ----------

  function BytesOf(b: Bytes): Bytes {
    EncodeLe(|b|, 8) + b
  }

  function EntriesOf(m: Metadata): Bytes
    decreases |m|
  {
    if |m| == 0 then [] else BytesOf(m[0].key) + BytesOf(m[0].value) + EntriesOf(m[1..])
  }

  function MetadataOf(m: Metadata): Bytes {
    EncodeLe(|m|, 8) + EntriesOf(m)
  }

  /** Two's complement of a 16-bit integer. */
  function Unsigned16(n: I16): U16 {
    if n < 0 then n + 0x1_0000 else n
  }

  /** The variant index, which is serialized first. */
  function IndexOf(p: Parameters): U8 {
    match p
    case NoParameters => 0
    case DecimalParameters(_, _) => 1
    case TimeParameters(_) => 2
    case TimestampParameters(_, _) => 3
    case StringParameters(_) => 4
    case FixedBinaryParameters(_) => 5
  }

  /** The parameter bytes after the variant index. */
  function DetailsOf(p: Parameters): Bytes {
    match p
    case NoParameters => []
    case DecimalParameters(precision, scale) => EncodeLe(precision, 1) + EncodeLe(Unsigned16(scale), 2)
    case TimeParameters(unit) => EncodeLe(unit, 1)
    case TimestampParameters(unit, timezone) => EncodeLe(unit, 1) + EncodeLe(timezone, 1)
    case StringParameters(validation) => EncodeLe(validation, 1)
    case FixedBinaryParameters(width) => EncodeLe(width, 4)
  }

  function TypeOf(t: LogicalType): Bytes {
    EncodeLe(t.kind, 1) + EncodeLe(IndexOf(t.parameters), 1) + DetailsOf(t.parameters)
  }

  function NullableCode(f: Field): U8 {
    if f.nullable then 1 else 0
  }

  function FieldOf(f: Field): Bytes {
    EncodeLe(f.id, 4) + BytesOf(f.name) + TypeOf(f.fieldType) + EncodeLe(NullableCode(f), 1) + MetadataOf(f.metadata)
  }

  function FieldsOf(fields: seq<Field>): Bytes
    decreases |fields|
  {
    if |fields| == 0 then [] else FieldOf(fields[0]) + FieldsOf(fields[1..])
  }

  /** The field count, narrowed to 32 bits. */
  function CountCode(n: nat): U32
    ensures n < TWO_TO_32 ==> CountCode(n) == n
  {
    n % 0x1_0000_0000
  }

  function CanonicalBytes(fields: seq<Field>, metadata: Metadata): Bytes {
    PREFIX + EncodeLe(CountCode(|fields|), 4) + FieldsOf(fields) + MetadataOf(metadata)
  }

  // ---------- sizes that fit their prefixes ----------

  predicate SizedMetadata(m: Metadata) {
    |m| < TWO_TO_64 && forall i | 0 <= i < |m| :: |m[i].key| < TWO_TO_64 && |m[i].value| < TWO_TO_64
  }

  predicate SizedField(f: Field) {
    |f.name| < TWO_TO_64 && SizedMetadata(f.metadata)
  }

  predicate SizedFields(fields: seq<Field>) {
    forall i | 0 <= i < |fields| :: SizedField(fields[i])
  }

  // ---------- concatenations regrouped from the left to the right ----------

  lemma Regroup3(a: Bytes, b: Bytes, c: Bytes)
    ensures (a + b) + c == a + (b + c)
  {
  }

  lemma Regroup4(a: Bytes, b: Bytes, c: Bytes, d: Bytes)
    ensures (a + b + c) + d == a + (b + (c + d))
  {
  }

  lemma Regroup6(a: Bytes, b: Bytes, c: Bytes, d: Bytes, e: Bytes, f: Bytes)
    ensures (a + b + c + d + e) + f == a + (b + (c + (d + (e + f))))
  {
  }
}
