/** The fixed 32-byte record envelope: encoder, parser and complete-record verification. */
module RecordEnvelopes {
  import opened Outcomes
  import opened Endian
  import opened Words
  import opened Crc32c
  import opened Crc32cBursts
  import opened Crc32cPublished
  import opened Crc32cHashing

  const ENVELOPE_SIZE: nat := 32
  const MANDATORY_FLAG: Byte := 0x01
  const RESERVED_FLAGS: Byte := 0xfe

  /** ASCII SHR1. */
  const SYNC: Bytes := [0x53, 0x48, 0x52, 0x31]

  datatype RecordEnvelope = RecordEnvelope(
    recordType: Byte,
    flags: Byte,
    extensionLength: U16,
    payloadLength: U64,
    sequence: U64,
    payloadChecksum: bv32)
  {
    predicate Mandatory() {
      flags & MANDATORY_FLAG != 0
    }

    predicate UsesReservedFlags() {
      flags & RESERVED_FLAGS != 0
    }
  }

  datatype EnvelopeLimits = EnvelopeLimits(maximumExtensionLength: U16, maximumPayloadLength: U64)

  /** Only VerifyRecord makes one. */
  datatype VerifiedRecord = VerifiedRecord(envelope: RecordEnvelope)

  // ---------- layout ----------

  /** Bytes 0 through 23, which the envelope checksum covers. */
  function Header(e: RecordEnvelope): (b: Bytes)
    ensures |b| == 24
  {
    SYNC + [e.recordType, e.flags] + EncodeLe(e.extensionLength, 2) + EncodeLe(e.payloadLength, 8)
    + EncodeLe(e.sequence, 8)
  }

  /** The whole envelope as published. */
  function Encoded(e: RecordEnvelope): (b: Bytes)
    ensures |b| == ENVELOPE_SIZE
  {
    Header(e) + LittleEndianBytes(Checksum(Header(e))) + LittleEndianBytes(e.payloadChecksum)
  }

  /** Copies a field into the output buffer. */
  method WriteBytes(output: array<Byte>, offset: nat, bytes: Bytes)
    requires offset + |bytes| <= output.Length
    modifies output
    ensures output[..] == old(output[..offset]) + bytes + old(output[offset + |bytes|..])
  {
    for i := 0 to |bytes|
      invariant output[..offset] == old(output[..offset])
      invariant output[offset..offset + i] == bytes[..i]
      invariant output[offset + |bytes|..] == old(output[offset + |bytes|..])
    {
      output[offset + i] := bytes[i];
    }
  }

  method EncodeRecordEnvelope(e: RecordEnvelope) returns (r: Result<Bytes>)
    ensures r == if e.UsesReservedFlags() then Err(InvalidRecord) else Ok(Encoded(e))
  {
    if e.flags & RESERVED_FLAGS != 0 {
      return Err(InvalidRecord);
    }
    var output := new Byte[ENVELOPE_SIZE](_ => 0);
    WriteBytes(output, 0, SYNC);
    output[4] := e.recordType;
    output[5] := e.flags;
    assert output[..6] == SYNC + [e.recordType, e.flags];
    WriteBytes(output, 6, EncodeLe(e.extensionLength, 2));
    WriteBytes(output, 8, EncodeLe(e.payloadLength, 8));
    WriteBytes(output, 16, EncodeLe(e.sequence, 8));
    assert output[..24] == Header(e);
    var hasher := new Crc32cHasher(Portable, false);
    hasher.Update(output[..24]);
    assert hasher.fed == Header(e);
    WriteBytes(output, 24, LittleEndianBytes(hasher.Finalize()));
    WriteBytes(output, 28, LittleEndianBytes(e.payloadChecksum));
    assert output[..] == Encoded(e);
    return Ok(output[..]);
  }

  // ---------- parsing ----------

  /** Every check that precedes the checksum, in the parser's order, and the fields that pass them. */
  function AdmittedFields(bytes: Bytes, limits: EnvelopeLimits): (r: Result<RecordEnvelope>)
    ensures r.Ok? ==> |bytes| >= ENVELOPE_SIZE
  {
    if |bytes| < ENVELOPE_SIZE then Err(UnexpectedEnd)
    else if bytes[..4] != SYNC then Err(InvalidMagic)
    else if bytes[5] & RESERVED_FLAGS != 0 then Err(InvalidRecord)
    else
      var extensionLength :- DecodeU16(bytes[6..8]);
      var payloadLength :- DecodeU64(bytes[8..16]);
      var sequence :- DecodeU64(bytes[16..24]);
      if extensionLength > limits.maximumExtensionLength then Err(LimitExceeded)
      else if payloadLength > limits.maximumPayloadLength then Err(LimitExceeded)
      else
        var contentLength :- CheckedAdd(extensionLength, payloadLength);
        var totalLength :- CheckedAdd(ENVELOPE_SIZE, contentLength);
        Ok(RecordEnvelope(bytes[4], bytes[5], extensionLength, payloadLength, sequence,
                          FromLittleEndian(bytes[28..32])))
  }

  /** What the parser answers: the envelope checksum is compared last. */
  function Parsed(bytes: Bytes, limits: EnvelopeLimits): Result<RecordEnvelope> {
    var e :- AdmittedFields(bytes, limits);
    if FromLittleEndian(bytes[24..28]) != Checksum(bytes[..24]) then Err(ChecksumMismatch) else Ok(e)
  }

  method ParseRecordEnvelope(bytes: Bytes, limits: EnvelopeLimits) returns (r: Result<RecordEnvelope>)
    ensures r == Parsed(bytes, limits)
  {
    var e :- AdmittedFields(bytes, limits);
    var storedChecksum := FromLittleEndian(bytes[24..28]);
    var hasher := new Crc32cHasher(Portable, false);
    hasher.Update(bytes[..24]);
    assert hasher.fed == bytes[..24];
    if storedChecksum != hasher.Finalize() {
      return Err(ChecksumMismatch);
    }
    return Ok(e);
  }

  predicate WithinLimits(e: RecordEnvelope, limits: EnvelopeLimits) {
    e.extensionLength <= limits.maximumExtensionLength && e.payloadLength <= limits.maximumPayloadLength
  }

  predicate Acceptable(e: RecordEnvelope, limits: EnvelopeLimits) {
    && !e.UsesReservedFlags()
    && WithinLimits(e, limits)
    && ENVELOPE_SIZE + e.extensionLength + e.payloadLength < TWO_TO_64
  }

  // ---------- the parser inverts the encoder ----------

  lemma HeaderParts(e: RecordEnvelope, b: Bytes)
    requires |b| >= 24
    ensures b[..24] == Header(e) <==>
            && b[..4] == SYNC && b[4] == e.recordType && b[5] == e.flags
            && b[6..8] == EncodeLe(e.extensionLength, 2)
            && b[8..16] == EncodeLe(e.payloadLength, 8)
            && b[16..24] == EncodeLe(e.sequence, 8)
  {
    var h := Header(e);
    assert h[..4] == SYNC && h[4] == e.recordType && h[5] == e.flags;
    assert h[6..8] == EncodeLe(e.extensionLength, 2);
    assert h[8..16] == EncodeLe(e.payloadLength, 8);
    assert h[16..24] == EncodeLe(e.sequence, 8);
    if b[..24] == h {
      assert b[..4] == b[..24][..4] && b[6..8] == b[..24][6..8];
      assert b[8..16] == b[..24][8..16] && b[16..24] == b[..24][16..24];
    }
    assert b[..24] == b[..4] + [b[4], b[5]] + b[6..8] + b[8..16] + b[16..24];
  }

  /** The admitted fields are exactly those whose encoding is the header read. */
  lemma AdmittedExactly(b: Bytes, limits: EnvelopeLimits, e: RecordEnvelope)
    ensures AdmittedFields(b, limits) == Ok(e) <==>
            && |b| >= ENVELOPE_SIZE
            && b[..24] == Header(e)
            && e.payloadChecksum == FromLittleEndian(b[28..32])
            && Acceptable(e, limits)
  {
    if |b| >= ENVELOPE_SIZE {
      HeaderParts(e, b);
      DecodeU16Exact(b[6..8], e.extensionLength);
      DecodeU64Exact(b[8..16], e.payloadLength);
      DecodeU64Exact(b[16..24], e.sequence);
    }
  }

  lemma StoredChecksum(b: Bytes, checksum: bv32)
    requires |b| == 4
    ensures FromLittleEndian(b) == checksum <==> b == LittleEndianBytes(checksum)
  {
    ChecksumRoundTrip(checksum);
    ChecksumBytesRoundTrip(b);
  }

  lemma EncodedParts(e: RecordEnvelope, b: Bytes)
    requires |b| >= ENVELOPE_SIZE
    ensures b[..32] == Encoded(e) <==>
            && b[..24] == Header(e)
            && b[24..28] == LittleEndianBytes(Checksum(Header(e)))
            && b[28..32] == LittleEndianBytes(e.payloadChecksum)
  {
    var w := Encoded(e);
    assert w[..24] == Header(e);
    assert w[24..28] == LittleEndianBytes(Checksum(Header(e)));
    assert w[28..32] == LittleEndianBytes(e.payloadChecksum);
    if b[..32] == w {
      assert b[..24] == b[..32][..24] && b[24..28] == b[..32][24..28] && b[28..32] == b[..32][28..32];
    }
    assert b[..32] == b[..24] + b[24..28] + b[28..32];
  }

  /** Parsing succeeds with an envelope exactly when the bytes are its encoding and it is within bounds. */
  lemma ParseExact(b: Bytes, limits: EnvelopeLimits, e: RecordEnvelope)
    ensures Parsed(b, limits) == Ok(e) <==>
            |b| >= ENVELOPE_SIZE && b[..32] == Encoded(e) && Acceptable(e, limits)
  {
    AdmittedExactly(b, limits, e);
    if |b| >= ENVELOPE_SIZE {
      EncodedParts(e, b);
      StoredChecksum(b[24..28], Checksum(b[..24]));
      StoredChecksum(b[28..32], e.payloadChecksum);
    }
  }

  // ---------- the published layout ----------

  lemma SyncText()
    ensures SYNC == Ascii("SHR1")
  {
  }

  /** Every field at its published offset, integers little-endian, and the published checksum of bytes 0 to 23. */
  lemma EnvelopeLayout(e: RecordEnvelope)
    ensures var b := Encoded(e);
            && |b| == 32
            && b[..4] == Ascii("SHR1") && b[4] == e.recordType && b[5] == e.flags
            && DecodeLe(b[6..8]) == e.extensionLength
            && DecodeLe(b[8..16]) == e.payloadLength
            && DecodeLe(b[16..24]) == e.sequence
            && IsPublished(b[..24], FromLittleEndian(b[24..28]))
            && FromLittleEndian(b[28..32]) == e.payloadChecksum
  {
    var b := Encoded(e);
    SyncText();
    EncodedParts(e, b);
    assert b[..32] == b;
    HeaderParts(e, b);
    Capacities();
    DecodeEncode(e.extensionLength, 2);
    DecodeEncode(e.payloadLength, 8);
    DecodeEncode(e.sequence, 8);
    ChecksumRoundTrip(Checksum(Header(e)));
    ChecksumRoundTrip(e.payloadChecksum);
    ChecksumIsPublished(Header(e), Checksum(Header(e)));
  }

  /** Bit 0 marks a mandatory record; every other bit is reserved. */
  lemma FlagBits(e: RecordEnvelope)
    ensures e.UsesReservedFlags() <==> e.flags >= 2
    ensures e.Mandatory() <==> e.flags & 0x01 == 0x01
  {
  }

  // ---------- why an envelope is refused ----------

  /** Whatever follows the sync bytes is the header of some envelope. */
  lemma SyncedHasHeader(b: Bytes) returns (e: RecordEnvelope)
    requires |b| >= ENVELOPE_SIZE && b[..4] == SYNC
    ensures b[..24] == Header(e) && e.payloadChecksum == FromLittleEndian(b[28..32])
  {
    var extensionLength := DecodeU16(b[6..8]).value;
    var payloadLength := DecodeU64(b[8..16]).value;
    var sequence := DecodeU64(b[16..24]).value;
    e := RecordEnvelope(b[4], b[5], extensionLength, payloadLength, sequence, FromLittleEndian(b[28..32]));
    DecodeU16Exact(b[6..8], extensionLength);
    DecodeU64Exact(b[8..16], payloadLength);
    DecodeU64Exact(b[16..24], sequence);
    HeaderParts(e, b);
  }

  /** How the parser answers when the header it reads is that of `e`. */
  ghost predicate JudgedAs(b: Bytes, limits: EnvelopeLimits, e: RecordEnvelope)
    requires |b| >= ENVELOPE_SIZE
  {
    && b[..24] == Header(e)
    && (if e.flags >= 2 then Parsed(b, limits) == Err(InvalidRecord)
        else if e.extensionLength > limits.maximumExtensionLength then Parsed(b, limits) == Err(LimitExceeded)
        else if e.payloadLength > limits.maximumPayloadLength then Parsed(b, limits) == Err(LimitExceeded)
        else if 32 + e.extensionLength + e.payloadLength >= 0x1_0000_0000_0000_0000 then
          Parsed(b, limits) == Err(ArithmeticOverflow)
        else Parsed(b, limits) == Err(ChecksumMismatch) <==> b[24..28] != LittleEndianBytes(Checksum(Header(e))))
  }

  /**
   * The reason for a refusal: truncation, then the sync bytes, then reserved flags, limits, 64-bit
   * overflow of the whole record, and only then the checksum.
   */
  lemma RefusalReasons(b: Bytes, limits: EnvelopeLimits)
    ensures |b| < ENVELOPE_SIZE ==> Parsed(b, limits) == Err(UnexpectedEnd)
    ensures |b| >= ENVELOPE_SIZE && b[..4] != SYNC ==> Parsed(b, limits) == Err(InvalidMagic)
    ensures |b| >= ENVELOPE_SIZE && b[..4] == SYNC ==> exists e: RecordEnvelope :: JudgedAs(b, limits, e)
    ensures forall e: RecordEnvelope | |b| >= ENVELOPE_SIZE && b[..24] == Header(e) :: JudgedAs(b, limits, e)
  {
    if |b| >= ENVELOPE_SIZE {
      if b[..4] == SYNC {
        var e := SyncedHasHeader(b);
      }
      forall e: RecordEnvelope | b[..24] == Header(e)
        ensures JudgedAs(b, limits, e)
      {
        FlagBits(e);
        HeaderParts(e, b);
        DecodeU16Exact(b[6..8], e.extensionLength);
        DecodeU64Exact(b[8..16], e.payloadLength);
        DecodeU64Exact(b[16..24], e.sequence);
        StoredChecksum(b[24..28], Checksum(Header(e)));
      }
    }
  }

  // ---------- damage to the envelope ----------

  /** Bytes 0 through 27 hash to the constant residue exactly when the stored checksum is right. */
  lemma ResidueOfEnvelope(b: Bytes)
    requires |b| >= ENVELOPE_SIZE
    ensures FromLittleEndian(b[24..28]) == Checksum(b[..24])
            <==> Crc(ALL_ONES, b[..28]) == BitSteps(ALL_ONES, 32)
  {
    var stored := FromLittleEndian(b[24..28]);
    ChecksumBytesRoundTrip(b[24..28]);
    ConstantResidue(b[..24], stored);
    assert b[..28] == b[..24] + b[24..28];
  }

  /**
   * Any burst of at most 32 bits within the message and its stored checksum is caught, wherever it
   * starts, whatever happens to the bytes after it and whatever limits the reader applies.
   */
  lemma EnvelopeBurstRejected(b: Bytes, damaged: Bytes, limits: EnvelopeLimits, others: EnvelopeLimits, start: nat)
    requires Parsed(b, limits).Ok?
    requires |damaged| >= 28
    requires damaged[..28] != b[..28]
    requires DifferOnlyWithin(Bits(b[..28]), Bits(damaged[..28]), start, 32)
    ensures Parsed(damaged, others).Err?
    ensures AdmittedFields(damaged, others).Ok? ==> Parsed(damaged, others) == Err(ChecksumMismatch)
    ensures AdmittedFields(damaged, others).Err? ==>
              Parsed(damaged, others).error == AdmittedFields(damaged, others).error
  {
    ResidueOfEnvelope(b);
    if Bits(b[..28]) == Bits(damaged[..28]) {
      BitsInjective(b[..28], damaged[..28]);
    }
    BurstDetected(ALL_ONES, Bits(b[..28]), Bits(damaged[..28]), start);
    if |damaged| >= ENVELOPE_SIZE {
      ResidueOfEnvelope(damaged);
    }
  }

  // ---------- complete records ----------

  /** What verification answers for an envelope and the content acquired for it. */
  function Verified(envelopeBytes: Bytes, extension: Bytes, payload: Bytes, limits: EnvelopeLimits)
    : Result<VerifiedRecord>
  {
    var e :- Parsed(envelopeBytes, limits);
    if |extension| != e.extensionLength || |payload| != e.payloadLength then Err(InvalidRecord)
    else if Checksum(extension + payload) != e.payloadChecksum then Err(ChecksumMismatch)
    else Ok(VerifiedRecord(e))
  }

  method VerifyRecord(envelopeBytes: Bytes, extension: Bytes, payload: Bytes, limits: EnvelopeLimits)
    returns (r: Result<VerifiedRecord>)
    ensures r == Verified(envelopeBytes, extension, payload, limits)
  {
    var e :- ParseRecordEnvelope(envelopeBytes, limits);
    if |extension| != e.extensionLength || |payload| != e.payloadLength {
      return Err(InvalidRecord);
    }
    var hasher := new Crc32cHasher(Portable, false);
    hasher.Update(extension);
    assert hasher.fed == extension;
    hasher.Update(payload);
    if hasher.Finalize() != e.payloadChecksum {
      return Err(ChecksumMismatch);
    }
    return Ok(VerifiedRecord(e));
  }

  /** Verification accepts exactly the encodings of acceptable envelopes together with content they describe. */
  lemma VerifyExact(envelopeBytes: Bytes, extension: Bytes, payload: Bytes, limits: EnvelopeLimits, e: RecordEnvelope)
    ensures Verified(envelopeBytes, extension, payload, limits) == Ok(VerifiedRecord(e)) <==>
            && |envelopeBytes| >= ENVELOPE_SIZE && envelopeBytes[..32] == Encoded(e)
            && Acceptable(e, limits)
            && |extension| == e.extensionLength && |payload| == e.payloadLength
            && Checksum(extension + payload) == e.payloadChecksum
  {
    ParseExact(envelopeBytes, limits, e);
  }

  /**
   * The reason a record is refused: that of its envelope, then content of other lengths than stated, then
   * content whose published checksum is not the one stated.
   */
  lemma RecordRefusalReasons(envelopeBytes: Bytes, extension: Bytes, payload: Bytes, limits: EnvelopeLimits)
    ensures var parsed, r := Parsed(envelopeBytes, limits), Verified(envelopeBytes, extension, payload, limits);
            if parsed.Err? then r == Err(parsed.error)
            else if |extension| != parsed.value.extensionLength || |payload| != parsed.value.payloadLength then
              r == Err(InvalidRecord)
            else if !IsPublished(extension + payload, parsed.value.payloadChecksum) then r == Err(ChecksumMismatch)
            else r == Ok(VerifiedRecord(parsed.value))
  {
    var parsed := Parsed(envelopeBytes, limits);
    if parsed.Ok? {
      ChecksumIsPublished(extension + payload, parsed.value.payloadChecksum);
    }
  }

  lemma ChecksumsDiffer(a: Bytes, b: Bytes, start: nat)
    requires |a| == |b| && a != b
    requires DifferOnlyWithin(Bits(a), Bits(b), start, 32)
    ensures Checksum(a) != Checksum(b)
  {
    if Bits(a) == Bits(b) {
      BitsInjective(a, b);
    }
    BurstDetected(ALL_ONES, Bits(a), Bits(b), start);
    if Checksum(a) == Checksum(b) {
      XorInjective(Crc(ALL_ONES, a), Crc(ALL_ONES, b), ALL_ONES);
    }
  }

  /** A burst of at most 32 bits in the content, even across the extension boundary, is a checksum mismatch. */
  lemma ContentBurstRejected(envelopeBytes: Bytes, extension: Bytes, payload: Bytes,
                             extension': Bytes, payload': Bytes, limits: EnvelopeLimits, start: nat)
    requires Verified(envelopeBytes, extension, payload, limits).Ok?
    requires |extension'| == |extension| && |payload'| == |payload|
    requires extension' + payload' != extension + payload
    requires DifferOnlyWithin(Bits(extension + payload), Bits(extension' + payload'), start, 32)
    ensures Verified(envelopeBytes, extension', payload', limits) == Err(ChecksumMismatch)
  {
    ChecksumsDiffer(extension + payload, extension' + payload', start);
  }
}
