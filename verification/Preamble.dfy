/** The 16-byte file preamble. */
module Preambles {
  import opened Outcomes
  import opened Endian
  import opened Crc32c
  import opened Crc32cBursts
  import opened Crc32cPublished
  import opened Crc32cHashing

  const PREAMBLE_SIZE: nat := 16
  const CURRENT_MAJOR: U16 := 1

  /** ASCII SHIBORI and a zero byte. */
  const MAGIC: Bytes := [0x53, 0x48, 0x49, 0x42, 0x4f, 0x52, 0x49, 0x00]

  datatype FilePreamble = FilePreamble(major: U16, minor: U16, checksum: bv32)

  function VersionHeader(major: U16, minor: U16): (b: Bytes)
    ensures |b| == 12
  {
    MAGIC + EncodeLe(major, 2) + EncodeLe(minor, 2)
  }

  function EncodedPreamble(major: U16, minor: U16): (b: Bytes)
    ensures |b| == PREAMBLE_SIZE
  {
    VersionHeader(major, minor) + LittleEndianBytes(Checksum(VersionHeader(major, minor)))
  }

  method WriteVersionHeader(output: array<Byte>, major: U16, minor: U16)
    requires output.Length == PREAMBLE_SIZE
    modifies output
    ensures output[..12] == VersionHeader(major, minor)
  {
    for index := 0 to |MAGIC|
      invariant output[..index] == MAGIC[..index]
    {
      output[index] := MAGIC[index];
    }
    var majorBytes := EncodeLe(major, 2);
    output[8] := majorBytes[0];
    output[9] := majorBytes[1];
    var minorBytes := EncodeLe(minor, 2);
    output[10] := minorBytes[0];
    output[11] := minorBytes[1];
    assert output[..8] == MAGIC && output[8..10] == majorBytes && output[10..12] == minorBytes;
    assert output[..12] == output[..8] + output[8..10] + output[10..12];
  }

  method EncodeFilePreamble(major: U16, minor: U16) returns (b: Bytes)
    ensures b == EncodedPreamble(major, minor)
  {
    var output := new Byte[PREAMBLE_SIZE](_ => 0);
    WriteVersionHeader(output, major, minor);
    var hasher := new Crc32cHasher(Portable, false);
    hasher.Update(output[..12]);
    assert hasher.fed == output[..12];
    var checksumBytes := LittleEndianBytes(hasher.Finalize());
    ghost var header := output[..12];
    for index := 0 to |checksumBytes|
      invariant output[..12] == header
      invariant output[12..12 + index] == checksumBytes[..index]
    {
      output[12 + index] := checksumBytes[index];
    }
    assert output[..] == output[..12] + output[12..16];
    return output[..];
  }

  /** What the parser answers; the version is judged only after the checksum. */
  function ParsedPreamble(bytes: Bytes): Result<FilePreamble> {
    if |bytes| < PREAMBLE_SIZE then Err(UnexpectedEnd)
    else if bytes[..8] != MAGIC then Err(InvalidMagic)
    else
      var major :- DecodeU16(bytes[8..10]);
      var minor :- DecodeU16(bytes[10..12]);
      var stored := FromLittleEndian(bytes[12..16]);
      if stored != Checksum(bytes[..12]) then Err(ChecksumMismatch)
      else if major != CURRENT_MAJOR then Err(UnsupportedFormatVersion)
      else Ok(FilePreamble(major, minor, stored))
  }

  method ParseFilePreamble(bytes: Bytes) returns (r: Result<FilePreamble>)
    ensures r == ParsedPreamble(bytes)
  {
    if |bytes| < PREAMBLE_SIZE {
      return Err(UnexpectedEnd);
    }
    for index := 0 to |MAGIC|
      invariant bytes[..index] == MAGIC[..index]
    {
      if bytes[index] != MAGIC[index] {
        assert bytes[..8][index] != MAGIC[index];
        return Err(InvalidMagic);
      }
    }
    var major := DecodeU16(bytes[8..10]).value;
    var minor := DecodeU16(bytes[10..12]).value;
    var stored := FromLittleEndian(bytes[12..16]);
    var hasher := new Crc32cHasher(Portable, false);
    hasher.Update(bytes[..12]);
    assert hasher.fed == bytes[..12];
    if stored != hasher.Finalize() {
      return Err(ChecksumMismatch);
    }
    if major != CURRENT_MAJOR {
      return Err(UnsupportedFormatVersion);
    }
    return Ok(FilePreamble(major, minor, stored));
  }

  lemma PreambleParts(b: Bytes, major: U16, minor: U16)
    requires |b| >= PREAMBLE_SIZE
    ensures b[..16] == EncodedPreamble(major, minor) <==>
            && b[..8] == MAGIC && b[8..10] == EncodeLe(major, 2) && b[10..12] == EncodeLe(minor, 2)
            && FromLittleEndian(b[12..16]) == Checksum(b[..12])
  {
    var h, w := VersionHeader(major, minor), EncodedPreamble(major, minor);
    assert h[..8] == MAGIC && h[8..10] == EncodeLe(major, 2) && h[10..12] == EncodeLe(minor, 2);
    assert w[..12] == h && w[12..16] == LittleEndianBytes(Checksum(h));
    ChecksumRoundTrip(Checksum(h));
    ChecksumBytesRoundTrip(b[12..16]);
    if b[..16] == w {
      assert b[..12] == b[..16][..12] && b[12..16] == b[..16][12..16];
      assert b[..8] == b[..12][..8] && b[8..10] == b[..12][8..10] && b[10..12] == b[..12][10..12];
    }
    assert b[..12] == b[..8] + b[8..10] + b[10..12];
    assert b[..16] == b[..12] + b[12..16];
  }

  lemma MagicText()
    ensures MAGIC == Ascii("SHIBORI") + [0]
  {
  }

  /** Every field at its published offset, integers little-endian, and the published checksum of bytes 0 to 11. */
  lemma PreambleLayout(major: U16, minor: U16)
    ensures var b := EncodedPreamble(major, minor);
            && |b| == 16
            && b[..8] == Ascii("SHIBORI") + [0]
            && DecodeLe(b[8..10]) == major && DecodeLe(b[10..12]) == minor
            && IsPublished(b[..12], FromLittleEndian(b[12..16]))
  {
    var b := EncodedPreamble(major, minor);
    MagicText();
    assert b[..16] == b;
    PreambleParts(b, major, minor);
    Capacities();
    DecodeEncode(major, 2);
    DecodeEncode(minor, 2);
    ChecksumIsPublished(b[..12], Checksum(b[..12]));
  }

  lemma FormatOneHeader()
    ensures VersionHeader(1, 0) == [0x53, 0x48, 0x49, 0x42, 0x4f, 0x52, 0x49, 0x00, 0x01, 0x00, 0x00, 0x00]
  {
    assert EncodeLe(0, 1) == [0x00] + EncodeLe(0, 0);
    assert EncodeLe(0, 2) == [0x00] + EncodeLe(0, 1);
    assert EncodeLe(1, 2) == [0x01] + EncodeLe(0, 1);
  }

  lemma FormatOneChecksum()
    ensures Checksum([0x53, 0x48, 0x49, 0x42, 0x4f, 0x52, 0x49, 0x00, 0x01, 0x00, 0x00, 0x00]) == 0x9ec3_bdeb
  {
    FedByte([], 0x53, 0xffffffff, 0xeff78589);
    var m1 := [] + [0x53];
    FedByte(m1, 0x48, 0xeff78589, 0x31095242);
    var m2 := m1 + [0x48];
    FedByte(m2, 0x49, 0x31095242, 0x99b8a269);
    var m3 := m2 + [0x49];
    FedByte(m3, 0x42, 0x99b8a269, 0xb9ad9d47);
    var m4 := m3 + [0x42];
    FedByte(m4, 0x4f, 0xb9ad9d47, 0x8a60f552);
    var m5 := m4 + [0x4f];
    FedByte(m5, 0x52, 0x8a60f552, 0x008a60f5);
    var m6 := m5 + [0x52];
    FedByte(m6, 0x49, 0x008a60f5, 0xff563779);
    var m7 := m6 + [0x49];
    FedByte(m7, 0x00, 0xff563779, 0x09d5d9f6);
    var m8 := m7 + [0x00];
    FedByte(m8, 0x01, 0x09d5d9f6, 0x27adde47);
    var m9 := m8 + [0x01];
    FedByte(m9, 0x00, 0x27adde47, 0x9596d489);
    var m10 := m9 + [0x00];
    FedByte(m10, 0x00, 0x9596d489, 0xfad17660);
    var m11 := m10 + [0x00];
    FedByte(m11, 0x00, 0xfad17660, 0x613c4214);
    var m12 := m11 + [0x00];
    assert m12 == [0x53, 0x48, 0x49, 0x42, 0x4f, 0x52, 0x49, 0x00, 0x01, 0x00, 0x00, 0x00];
  }

  lemma FormatOneChecksumBytes()
    ensures LittleEndianBytes(0x9ec3_bdeb) == [0xeb, 0xbd, 0xc3, 0x9e]
  {
  }

  /** The sixteen bytes of format 1.0, with the checksum 0x9ec3bdeb the documentation gives. */
  lemma FormatOnePreamble()
    ensures EncodedPreamble(1, 0)
         == [0x53, 0x48, 0x49, 0x42, 0x4f, 0x52, 0x49, 0x00, 0x01, 0x00, 0x00, 0x00, 0xeb, 0xbd, 0xc3, 0x9e]
  {
    FormatOneHeader();
    FormatOneChecksum();
    FormatOneChecksumBytes();
  }

  /** The parser inverts the encoder at the current major version, at every minor version. */
  lemma PreambleExact(b: Bytes, p: FilePreamble)
    ensures ParsedPreamble(b) == Ok(p) <==>
            && |b| >= PREAMBLE_SIZE && b[..16] == EncodedPreamble(p.major, p.minor)
            && p.major == 1
            && p.checksum == Checksum(VersionHeader(p.major, p.minor))
  {
    if |b| >= PREAMBLE_SIZE {
      PreambleParts(b, p.major, p.minor);
      DecodeU16Exact(b[8..10], p.major);
      DecodeU16Exact(b[10..12], p.minor);
      assert b[..12] == b[..8] + b[8..10] + b[10..12];
    }
  }

  /** An intact preamble of another major version is reported as unsupported, and nothing else is. */
  lemma UnsupportedExactly(b: Bytes)
    ensures ParsedPreamble(b) == Err(UnsupportedFormatVersion) <==>
            exists major: U16, minor: U16 ::
              |b| >= 16 && major != 1 && b[..16] == EncodedPreamble(major, minor)
  {
    if |b| >= PREAMBLE_SIZE {
      var major, minor := DecodeU16(b[8..10]).value, DecodeU16(b[10..12]).value;
      DecodeU16Exact(b[8..10], major);
      DecodeU16Exact(b[10..12], minor);
      PreambleParts(b, major, minor);
      forall m: U16, n: U16 | b[..16] == EncodedPreamble(m, n)
        ensures ParsedPreamble(b) == if m == CURRENT_MAJOR then ParsedPreamble(b) else Err(UnsupportedFormatVersion)
      {
        PreambleParts(b, m, n);
        DecodeU16Exact(b[8..10], m);
        DecodeU16Exact(b[10..12], n);
      }
    }
  }

  /** The reason for a refusal: truncation, then the magic, then the checksum, and only then the version. */
  lemma RefusalReasons(b: Bytes, major: U16, minor: U16)
    ensures |b| < PREAMBLE_SIZE ==> ParsedPreamble(b) == Err(UnexpectedEnd)
    ensures |b| >= PREAMBLE_SIZE && b[..8] != MAGIC ==> ParsedPreamble(b) == Err(InvalidMagic)
    ensures |b| >= PREAMBLE_SIZE && b[..12] == VersionHeader(major, minor) ==>
              (ParsedPreamble(b) == Err(ChecksumMismatch)
               <==> b[12..16] != LittleEndianBytes(Checksum(VersionHeader(major, minor))))
  {
    if |b| >= PREAMBLE_SIZE && b[..12] == VersionHeader(major, minor) {
      PreambleParts(b, major, minor);
      ChecksumRoundTrip(Checksum(b[..12]));
      ChecksumBytesRoundTrip(b[12..16]);
      assert b[..8] == b[..12][..8];
    }
  }

  lemma ResidueOfPreamble(b: Bytes)
    requires |b| == PREAMBLE_SIZE
    ensures FromLittleEndian(b[12..16]) == Checksum(b[..12]) <==> Crc(ALL_ONES, b) == BitSteps(ALL_ONES, 32)
  {
    ChecksumBytesRoundTrip(b[12..16]);
    ConstantResidue(b[..12], FromLittleEndian(b[12..16]));
    assert b == b[..12] + b[12..16];
  }

  /**
   * No burst of at most 32 bits turns an intact preamble, of any version, into one that is accepted or
   * mistaken for an unsupported version.
   */
  lemma PreambleBurstRejected(intact: Bytes, major: U16, minor: U16, damaged: Bytes, start: nat)
    requires intact == EncodedPreamble(major, minor)
    requires |damaged| == PREAMBLE_SIZE && damaged != intact
    requires DifferOnlyWithin(Bits(intact), Bits(damaged), start, 32)
    ensures ParsedPreamble(damaged) in {Err(InvalidMagic), Err(ChecksumMismatch)}
  {
    assert intact[..16] == intact;
    PreambleParts(intact, major, minor);
    ResidueOfPreamble(intact);
    ResidueOfPreamble(damaged);
    if Bits(intact) == Bits(damaged) {
      BitsInjective(intact, damaged);
    }
    BurstDetected(ALL_ONES, Bits(intact), Bits(damaged), start);
  }
}
