/** The incremental CRC32C hasher and the little-endian form of a checksum. */
module Crc32cHashing {
  import opened Outcomes
  import opened Words
  import opened Crc32c
  import opened Crc32cPublished
  import opened Crc32cWide

  // ---------- serialized checksums ----------

  function LowByteOf(v: bv32): Byte {
    (v & 0xff) as bv8
  }

  function ShiftByte(v: bv32): bv32 {
    v >> 8
  }

  function LittleEndianBytes(v: bv32): (b: Bytes)
    ensures |b| == 4
  {
    [LowByteOf(v), LowByteOf(ShiftByte(v)), LowByteOf(ShiftByte(ShiftByte(v))),
     LowByteOf(ShiftByte(ShiftByte(ShiftByte(v))))]
  }

  function FromLittleEndian(b: Bytes): bv32
    requires |b| == 4
  {
    (b[0] as bv32) | (b[1] as bv32 << 8) | (b[2] as bv32 << 16) | (b[3] as bv32 << 24)
  }

  lemma ChecksumRoundTrip(v: bv32)
    ensures FromLittleEndian(LittleEndianBytes(v)) == v
  {
  }

  lemma ChecksumBytesRoundTrip(b: Bytes)
    requires |b| == 4
    ensures LittleEndianBytes(FromLittleEndian(b)) == b
  {
    PackedWord(b[0], b[1], b[2], b[3]);
  }

  lemma PackedWord(b0: bv8, b1: bv8, b2: bv8, b3: bv8)
    ensures var v := (b0 as bv32) | (b1 as bv32 << 8) | (b2 as bv32 << 16) | (b3 as bv32 << 24);
            && (v & 0xff) as bv8 == b0
            && ((v >> 8) & 0xff) as bv8 == b1
            && (((v >> 8) >> 8) & 0xff) as bv8 == b2
            && ((((v >> 8) >> 8) >> 8) & 0xff) as bv8 == b3
  {
  }

  lemma {:induction false} BitStepsCompose(r: bv32, m: nat, n: nat)
    ensures BitSteps(BitSteps(r, m), n) == BitSteps(r, m + n)
    decreases m
  {
    if m > 0 {
      BitStepsCompose(BitStep(r), m - 1, n);
    }
  }

  lemma SplitWord(v: bv32)
    ensures v & 0xff == LowByteOf(v) as bv32
    ensures Xor(LowByteOf(v) as bv32, v & 0xffff_ff00) == v
  {
    SplitLowByte(v);
  }

  /** Eight steps consume the low byte of a word mixed in whole. */
  lemma ConsumeLowByte(state: bv32, v: bv32)
    ensures BitSteps(Xor(state, v), 8) == Xor(Crc(state, [LowByteOf(v)]), ShiftByte(v))
  {
    var low, high := LowByteOf(v) as bv32, v & 0xffff_ff00;
    SplitWord(v);
    XorAssociative(state, low, high);
    BitStepsLinear(Xor(state, low), high, 8);
    HighBytesShift(v);
    BitsOfOne(LowByteOf(v));
    FeedByte(state, LowByteOf(v));
  }

  function WordBytes(v: bv32, count: nat): (b: Bytes)
    decreases count, v
  {
    if count == 0 then [] else [LowByteOf(v)] + WordBytes(ShiftByte(v), count - 1)
  }

  function ShiftBytes(v: bv32, count: nat): bv32
    decreases count, v
  {
    if count == 0 then v else ShiftBytes(ShiftByte(v), count - 1)
  }

  lemma {:induction false} ConsumeBytes(state: bv32, v: bv32, count: nat)
    ensures BitSteps(Xor(state, v), 8 * count) == Xor(Crc(state, WordBytes(v, count)), ShiftBytes(v, count))
    decreases count
  {
    if count > 0 {
      var next, rest := Crc(state, [LowByteOf(v)]), ShiftByte(v);
      ConsumeLowByte(state, v);
      BitStepsCompose(Xor(state, v), 8, 8 * (count - 1));
      ConsumeBytes(next, rest, count - 1);
      CrcAppend(state, [LowByteOf(v)], WordBytes(rest, count - 1));
      assert 8 * count == 8 + 8 * (count - 1);
    }
  }

  lemma FourBytes(v: bv32)
    ensures WordBytes(v, 4) == LittleEndianBytes(v)
    ensures ShiftBytes(v, 4) == 0
  {
    var v2 := ShiftByte(ShiftByte(v));
    assert WordBytes(v, 4) == [LowByteOf(v), LowByteOf(ShiftByte(v))] + WordBytes(v2, 2);
    assert WordBytes(v2, 2) == [LowByteOf(v2), LowByteOf(ShiftByte(v2))] + WordBytes(ShiftByte(ShiftByte(v2)), 0);
    assert ShiftBytes(v, 4) == ShiftBytes(v2, 2);
    assert ShiftBytes(v2, 2) == ShiftBytes(ShiftByte(ShiftByte(v2)), 0);
    assert (((v >> 8) >> 8) >> 8) >> 8 == 0;
  }

  /** Hashing the four little-endian bytes of a word equals 32 steps after mixing in the word. */
  lemma CrcOfWord(state: bv32, v: bv32)
    ensures Crc(state, LittleEndianBytes(v)) == BitSteps(Xor(state, v), 32)
  {
    ConsumeBytes(state, v, 4);
    FourBytes(v);
    XorZero(Crc(state, WordBytes(v, 4)));
  }

  lemma {:induction false} BitStepsInjective(a: bv32, b: bv32, n: nat)
    requires BitSteps(a, n) == BitSteps(b, n)
    ensures a == b
    decreases n
  {
    if n > 0 {
      BitStepsInjective(BitStep(a), BitStep(b), n - 1);
      BitStepInjective(a, b);
    }
  }

  lemma InvertedState(state: bv32, stored: bv32)
    ensures stored == Xor(state, ALL_ONES) <==> Xor(state, stored) == ALL_ONES
  {
    XorAssociative(state, state, ALL_ONES);
    XorZero(state);
    XorZero(ALL_ONES);
    if Xor(state, stored) == ALL_ONES {
      XorCommutative(state, stored);
      XorCommutative(state, Xor(state, ALL_ONES));
      XorInjective(stored, Xor(state, ALL_ONES), state);
    }
  }

  /** A message followed by four bytes hashes to one constant residue exactly when those bytes are its checksum. */
  lemma ConstantResidue(message: Bytes, stored: bv32)
    ensures Crc(ALL_ONES, message + LittleEndianBytes(stored)) == BitSteps(ALL_ONES, 32)
            <==> stored == Checksum(message)
  {
    var state := Crc(ALL_ONES, message);
    CrcAppend(ALL_ONES, message, LittleEndianBytes(stored));
    CrcOfWord(state, stored);
    InvertedState(state, stored);
    if BitSteps(Xor(state, stored), 32) == BitSteps(ALL_ONES, 32) {
      BitStepsInjective(Xor(state, stored), ALL_ONES, 32);
    }
  }

  // ---------- the hasher ----------

  datatype Mode = Automatic | Portable

  datatype Implementation = PortableLoop | HardwareLoop

  class Crc32cHasher {
    var state: bv32
    const implementation: Implementation
    const table: seq<bv32>
    ghost var fed: Bytes

    ghost predicate Valid()
      reads this
    {
      IsTable(table) && state == Crc(ALL_ONES, fed)
    }

    constructor (mode: Mode, hardwareAvailable: bool)
      ensures Valid() && fed == []
      ensures implementation == HardwareLoop <==> mode == Automatic && hardwareAvailable
    {
      var entries := MakeCrc32cTable();
      table := entries[..];
      state := ALL_ONES;
      implementation := if mode == Automatic && hardwareAvailable then HardwareLoop else PortableLoop;
      fed := [];
    }

    /** Either loop extends the hashed string by exactly the new fragment. */
    method Update(bytes: Bytes)
      requires Valid()
      modifies this
      ensures Valid() && fed == old(fed) + bytes
    {
      CrcAppend(ALL_ONES, fed, bytes);
      if implementation == HardwareLoop {
        state := X86Crc32cUpdate(state, bytes);
      } else {
        state := PortableCrc32cUpdate(table, state, bytes);
      }
      fed := fed + bytes;
    }

    function Finalize(): (checksum: bv32)
      requires Valid()
      reads this
      ensures checksum == Checksum(fed) && IsPublished(fed, checksum)
    {
      ChecksumIsPublished(fed, Checksum(fed));
      Xor(state, ALL_ONES)
    }

    method Reset()
      requires Valid()
      modifies this
      ensures Valid() && fed == []
    {
      state := ALL_ONES;
      fed := [];
    }
  }
}
