/**
 * A reader of the published schema format, written from the format alone: widths, tags and order are
 * literal here, and nothing of the serializer is used. It gives back what the serializer wrote.
 */
module SchemaDecoder {
  import opened Outcomes
  import opened Endian
  import opened LogicalTypes
  import opened SchemaMetadata
  import opened SchemaCanonical

  // ---------- the reader ----------

  /** A value read off the front of a byte string and what follows it. */
  datatype Piece<T> = Bad | Piece(value: T, rest: Bytes)

  function ReadInteger(b: Bytes, width: nat): (r: Piece<nat>)
    ensures r.Piece? ==> r.value < Capacity(width)
  {
    if |b| < width then Bad
    else
      DecodeBound(b[..width]);
      Piece(DecodeLe(b[..width]), b[width..])
  }

  function ReadU8(b: Bytes): Piece<U8> {
    Capacities();
    var n := ReadInteger(b, 1);
    if n.Bad? then Bad else Piece(n.value, n.rest)
  }

  function ReadU32(b: Bytes): Piece<U32> {
    Capacities();
    var n := ReadInteger(b, 4);
    if n.Bad? then Bad else Piece(n.value, n.rest)
  }

  /** Two bytes in two's complement. */
  function ReadI16(b: Bytes): Piece<I16> {
    Capacities();
    var n := ReadInteger(b, 2);
    if n.Bad? then Bad else Piece(if n.value >= 0x8000 then n.value - 0x1_0000 else n.value, n.rest)
  }

  /** An eight-byte length and that many bytes. */
  function ReadText(b: Bytes): Piece<Bytes> {
    var n := ReadInteger(b, 8);
    if n.Bad? || n.value > |n.rest| then Bad else Piece(n.rest[..n.value], n.rest[n.value..])
  }

  /** `count` pieces, one after the other. */
  function ReadMany<T>(read: Bytes -> Piece<T>, b: Bytes, count: nat): Piece<seq<T>>
    decreases count
  {
    if count == 0 then Piece([], b)
    else
      var first := read(b);
      if first.Bad? then Bad else
      var others := ReadMany(read, first.rest, count - 1);
      if others.Bad? then Bad else Piece([first.value] + others.value, others.rest)
  }

  function ReadEntry(b: Bytes): Piece<Entry> {
    var key := ReadText(b);
    if key.Bad? then Bad else
    var value := ReadText(key.rest);
    if value.Bad? then Bad else Piece(Entry(key.value, value.value), value.rest)
  }

  /** An eight-byte count and that many pairs of key and value. */
  function ReadMetadata(b: Bytes): Piece<Metadata> {
    var count := ReadInteger(b, 8);
    if count.Bad? then Bad else ReadMany(ReadEntry, count.rest, count.value)
  }

  function ReadDecimal(b: Bytes): Piece<Parameters> {
    var precision := ReadU8(b);
    if precision.Bad? then Bad else
    var scale := ReadI16(precision.rest);
    if scale.Bad? then Bad else Piece(DecimalParameters(precision.value, scale.value), scale.rest)
  }

  function ReadTime(b: Bytes): Piece<Parameters> {
    var unit := ReadU8(b);
    if unit.Bad? then Bad else Piece(TimeParameters(unit.value), unit.rest)
  }

  function ReadTimestamp(b: Bytes): Piece<Parameters> {
    var unit := ReadU8(b);
    if unit.Bad? then Bad else
    var timezone := ReadU8(unit.rest);
    if timezone.Bad? then Bad else Piece(TimestampParameters(unit.value, timezone.value), timezone.rest)
  }

  function ReadString(b: Bytes): Piece<Parameters> {
    var validation := ReadU8(b);
    if validation.Bad? then Bad else Piece(StringParameters(validation.value), validation.rest)
  }

  function ReadFixedBinary(b: Bytes): Piece<Parameters> {
    var width := ReadU32(b);
    if width.Bad? then Bad else Piece(FixedBinaryParameters(width.value), width.rest)
  }

  /** A one-byte tag from 0 to 5 and the parameters it announces. */
  function ReadParameters(b: Bytes): Piece<Parameters> {
    var tag := ReadU8(b);
    if tag.Bad? then Bad
    else if tag.value == 0 then Piece(NoParameters, tag.rest)
    else if tag.value == 1 then ReadDecimal(tag.rest)
    else if tag.value == 2 then ReadTime(tag.rest)
    else if tag.value == 3 then ReadTimestamp(tag.rest)
    else if tag.value == 4 then ReadString(tag.rest)
    else if tag.value == 5 then ReadFixedBinary(tag.rest)
    else Bad
  }

  function ReadType(b: Bytes): Piece<LogicalType> {
    var kind := ReadU8(b);
    if kind.Bad? then Bad else
    var parameters := ReadParameters(kind.rest);
    if parameters.Bad? then Bad else Piece(LogicalType(kind.value, parameters.value), parameters.rest)
  }

  /** One byte, 1 or 0. */
  function ReadFlag(b: Bytes): Piece<bool> {
    var flag := ReadU8(b);
    if flag.Bad? || flag.value > 1 then Bad else Piece(flag.value == 1, flag.rest)
  }

  function ReadField(b: Bytes): Piece<Field> {
    var id := ReadU32(b);
    if id.Bad? then Bad else
    var name := ReadText(id.rest);
    if name.Bad? then Bad else
    var fieldType := ReadType(name.rest);
    if fieldType.Bad? then Bad else
    var nullable := ReadFlag(fieldType.rest);
    if nullable.Bad? then Bad else
    var metadata := ReadMetadata(nullable.rest);
    if metadata.Bad? then Bad
    else Piece(Field(id.value, name.value, fieldType.value, nullable.value, metadata.value), metadata.rest)
  }

  datatype Content = Content(fields: seq<Field>, metadata: Metadata)

  /** S, C, H and 1; a four-byte count and that many fields; the schema's metadata; nothing more. */
  function ReadSchema(b: Bytes): Option<Content> {
    if |b| < 4 || b[..4] != Ascii("SCH") + [0x01] then None
    else
      var count := ReadU32(b[4..]);
      if count.Bad? then None else
      var fields := ReadMany(ReadField, count.rest, count.value);
      if fields.Bad? then None else
      var metadata := ReadMetadata(fields.rest);
      if metadata.Bad? || metadata.rest != [] then None else Some(Content(fields.value, metadata.value))
  }

  // ---------- it reads what the serializer wrote ----------

  lemma SplitFront(front: Bytes, rest: Bytes)
    ensures (front + rest)[..|front|] == front && (front + rest)[|front|..] == rest
  {
  }

  lemma IntegerRead(value: nat, width: nat, rest: Bytes)
    requires value < Capacity(width)
    ensures ReadInteger(EncodeLe(value, width) + rest, width) == Piece(value, rest)
  {
    SplitFront(EncodeLe(value, width), rest);
    DecodeEncode(value, width);
  }

  lemma U8Read(value: U8, rest: Bytes)
    ensures ReadU8(EncodeLe(value, 1) + rest) == Piece(value, rest)
  {
    Capacities();
    IntegerRead(value, 1, rest);
  }

  lemma U32Read(value: U32, rest: Bytes)
    ensures ReadU32(EncodeLe(value, 4) + rest) == Piece(value, rest)
  {
    Capacities();
    IntegerRead(value, 4, rest);
  }

  lemma I16Read(value: I16, rest: Bytes)
    ensures ReadI16(EncodeLe(Unsigned16(value), 2) + rest) == Piece(value, rest)
  {
    Capacities();
    IntegerRead(Unsigned16(value), 2, rest);
  }

  lemma TextRead(text: Bytes, rest: Bytes)
    requires |text| < TWO_TO_64
    ensures ReadText(BytesOf(text) + rest) == Piece(text, rest)
  {
    Capacities();
    Regroup3(EncodeLe(|text|, 8), text, rest);
    IntegerRead(|text|, 8, text + rest);
    SplitFront(text, rest);
  }

  /** `read` gets `item` back from what `write` made of it, whatever follows. */
  ghost predicate Reads<T>(read: Bytes -> Piece<T>, write: T -> Bytes, item: T) {
    forall rest: Bytes :: read(write(item) + rest) == Piece(item, rest)
  }

  function WriteMany<T>(write: T -> Bytes, items: seq<T>): Bytes
    decreases |items|
  {
    if |items| == 0 then [] else write(items[0]) + WriteMany(write, items[1..])
  }

  lemma {:induction false} ManyRead<T>(read: Bytes -> Piece<T>, write: T -> Bytes, items: seq<T>, rest: Bytes)
    requires forall i | 0 <= i < |items| :: Reads(read, write, items[i])
    ensures ReadMany(read, WriteMany(write, items) + rest, |items|) == Piece(items, rest)
    decreases |items|
  {
    if |items| == 0 {
      assert [] + rest == rest;
    } else {
      var others := WriteMany(write, items[1..]);
      assert Reads(read, write, items[0]);
      assert read(write(items[0]) + (others + rest)) == Piece(items[0], others + rest);
      Regroup3(write(items[0]), others, rest);
      ManyRead(read, write, items[1..], rest);
      assert items == [items[0]] + items[1..];
    }
  }

  function EntryOf(e: Entry): Bytes {
    BytesOf(e.key) + BytesOf(e.value)
  }

  lemma EntryReads(e: Entry)
    requires |e.key| < TWO_TO_64 && |e.value| < TWO_TO_64
    ensures Reads(ReadEntry, EntryOf, e)
  {
    forall rest: Bytes
      ensures ReadEntry(EntryOf(e) + rest) == Piece(e, rest)
    {
      Regroup3(BytesOf(e.key), BytesOf(e.value), rest);
      TextRead(e.key, BytesOf(e.value) + rest);
      TextRead(e.value, rest);
    }
  }

  lemma {:induction false} EntriesAreMany(m: Metadata)
    ensures EntriesOf(m) == WriteMany(EntryOf, m)
    decreases |m|
  {
    if |m| > 0 {
      EntriesAreMany(m[1..]);
    }
  }

  lemma EntriesRead(m: Metadata, rest: Bytes)
    requires SizedMetadata(m)
    ensures ReadMany(ReadEntry, EntriesOf(m) + rest, |m|) == Piece(m, rest)
  {
    forall i | 0 <= i < |m|
      ensures Reads(ReadEntry, EntryOf, m[i])
    {
      EntryReads(m[i]);
    }
    EntriesAreMany(m);
    ManyRead(ReadEntry, EntryOf, m, rest);
  }

  lemma MetadataRead(m: Metadata, rest: Bytes)
    requires SizedMetadata(m)
    ensures ReadMetadata(MetadataOf(m) + rest) == Piece(m, rest)
  {
    Capacities();
    Regroup3(EncodeLe(|m|, 8), EntriesOf(m), rest);
    IntegerRead(|m|, 8, EntriesOf(m) + rest);
    EntriesRead(m, rest);
  }

  lemma DetailsRead(p: Parameters, rest: Bytes)
    ensures match p
            case NoParameters => DetailsOf(p) + rest == rest
            case DecimalParameters(_, _) => ReadDecimal(DetailsOf(p) + rest) == Piece(p, rest)
            case TimeParameters(_) => ReadTime(DetailsOf(p) + rest) == Piece(p, rest)
            case TimestampParameters(_, _) => ReadTimestamp(DetailsOf(p) + rest) == Piece(p, rest)
            case StringParameters(_) => ReadString(DetailsOf(p) + rest) == Piece(p, rest)
            case FixedBinaryParameters(_) => ReadFixedBinary(DetailsOf(p) + rest) == Piece(p, rest)
  {
    match p
    case NoParameters =>
    case DecimalParameters(precision, scale) =>
      Regroup3(EncodeLe(precision, 1), EncodeLe(Unsigned16(scale), 2), rest);
      U8Read(precision, EncodeLe(Unsigned16(scale), 2) + rest);
      I16Read(scale, rest);
    case TimeParameters(unit) =>
      U8Read(unit, rest);
    case TimestampParameters(unit, timezone) =>
      Regroup3(EncodeLe(unit, 1), EncodeLe(timezone, 1), rest);
      U8Read(unit, EncodeLe(timezone, 1) + rest);
      U8Read(timezone, rest);
    case StringParameters(validation) =>
      U8Read(validation, rest);
    case FixedBinaryParameters(width) =>
      U32Read(width, rest);
  }

  lemma ParametersRead(p: Parameters, rest: Bytes)
    ensures ReadParameters(EncodeLe(IndexOf(p), 1) + (DetailsOf(p) + rest)) == Piece(p, rest)
  {
    U8Read(IndexOf(p), DetailsOf(p) + rest);
    DetailsRead(p, rest);
  }

  lemma TypeRead(t: LogicalType, rest: Bytes)
    ensures ReadType(TypeOf(t) + rest) == Piece(t, rest)
  {
    Regroup4(EncodeLe(t.kind, 1), EncodeLe(IndexOf(t.parameters), 1), DetailsOf(t.parameters), rest);
    U8Read(t.kind, EncodeLe(IndexOf(t.parameters), 1) + (DetailsOf(t.parameters) + rest));
    ParametersRead(t.parameters, rest);
  }

  lemma FlagRead(f: Field, rest: Bytes)
    ensures ReadFlag(EncodeLe(NullableCode(f), 1) + rest) == Piece(f.nullable, rest)
  {
    U8Read(NullableCode(f), rest);
  }

  lemma FieldRead(f: Field, rest: Bytes)
    requires SizedField(f)
    ensures ReadField(FieldOf(f) + rest) == Piece(f, rest)
  {
    var nullable, metadata := EncodeLe(NullableCode(f), 1), MetadataOf(f.metadata);
    Regroup6(EncodeLe(f.id, 4), BytesOf(f.name), TypeOf(f.fieldType), nullable, metadata, rest);
    U32Read(f.id, BytesOf(f.name) + (TypeOf(f.fieldType) + (nullable + (metadata + rest))));
    TextRead(f.name, TypeOf(f.fieldType) + (nullable + (metadata + rest)));
    TypeRead(f.fieldType, nullable + (metadata + rest));
    FlagRead(f, metadata + rest);
    MetadataRead(f.metadata, rest);
  }

  lemma FieldReads(f: Field)
    requires SizedField(f)
    ensures Reads(ReadField, FieldOf, f)
  {
    forall rest: Bytes
      ensures ReadField(FieldOf(f) + rest) == Piece(f, rest)
    {
      FieldRead(f, rest);
    }
  }

  lemma {:induction false} FieldsAreMany(fields: seq<Field>)
    ensures FieldsOf(fields) == WriteMany(FieldOf, fields)
    decreases |fields|
  {
    if |fields| > 0 {
      FieldsAreMany(fields[1..]);
    }
  }

  lemma FieldsRead(fields: seq<Field>, rest: Bytes)
    requires SizedFields(fields)
    ensures ReadMany(ReadField, FieldsOf(fields) + rest, |fields|) == Piece(fields, rest)
  {
    forall i | 0 <= i < |fields|
      ensures Reads(ReadField, FieldOf, fields[i])
    {
      FieldReads(fields[i]);
    }
    FieldsAreMany(fields);
    ManyRead(ReadField, FieldOf, fields, rest);
  }

  lemma PrefixText()
    ensures PREFIX == Ascii("SCH") + [0x01]
  {
  }

  lemma AfterFour(head: Bytes, a: Bytes, b: Bytes, c: Bytes)
    requires |head| == 4
    ensures (head + a + b + c)[..4] == head && (head + a + b + c)[4..] == a + (b + c)
  {
  }

  /** Reading canonical bytes gives back exactly the fields and the metadata they were written from. */
  lemma CanonicalRead(fields: seq<Field>, metadata: Metadata)
    requires |fields| < TWO_TO_32 && SizedFields(fields) && SizedMetadata(metadata)
    ensures ReadSchema(CanonicalBytes(fields, metadata)) == Some(Content(fields, metadata))
  {
    PrefixText();
    AfterFour(PREFIX, EncodeLe(CountCode(|fields|), 4), FieldsOf(fields), MetadataOf(metadata));
    U32Read(|fields|, FieldsOf(fields) + MetadataOf(metadata));
    FieldsRead(fields, MetadataOf(metadata));
    MetadataRead(metadata, []);
    assert MetadataOf(metadata) + [] == MetadataOf(metadata);
  }

  /** So canonical bytes determine the fields and the schema metadata. */
  lemma CanonicalInjective(a: seq<Field>, m: Metadata, b: seq<Field>, n: Metadata)
    requires |a| < TWO_TO_32 && |b| < TWO_TO_32
    requires SizedFields(a) && SizedFields(b) && SizedMetadata(m) && SizedMetadata(n)
    requires CanonicalBytes(a, m) == CanonicalBytes(b, n)
    ensures a == b && m == n
  {
    CanonicalRead(a, m);
    CanonicalRead(b, n);
  }
}
