/**
 * Which checksum is published: the complement of a polynomial remainder, section 12.1 of RFC 3720. The
 * dividend is written down from the message alone, without a register, a start value or a final inversion.
 */
module Crc32cPublished {
  import opened Outcomes
  import opened Words
  import opened Crc32c
  import opened Crc32cPolynomial

  // ---------- the dividend, by exponents ----------

  /** Bit i of a message of n bits is the coefficient of x^(n+31-i); exponents n to n+31 are flipped. */
  predicate HasCoefficient(bits: seq<bool>, e: nat)
    requires e < |bits| + 32
  {
    (e >= 32 && bits[|bits| + 31 - e]) != (e >= |bits|)
  }

  /** x^32 times the message, with the 32 highest coefficients of the result flipped. */
  function PublishedDividend(bits: seq<bool>): Poly {
    set e: nat | e < |bits| + 32 && HasCoefficient(bits, e)
  }

  /** `c` is the published checksum of `message`: its complement is the remainder of the division. */
  ghost predicate IsPublished(message: Bytes, c: bv32) {
    IsRemainder(PublishedDividend(Bits(message)), RegisterPoly(c ^ 0xffff_ffff))
  }

  // ---------- the usual form for messages of at least 32 bits ----------

  function FirstBitsFlipped(bits: seq<bool>): (flipped: seq<bool>)
    requires |bits| >= 32
    ensures |flipped| == |bits|
  {
    seq(|bits|, i requires 0 <= i < |bits| => if i < 32 then !bits[i] else bits[i])
  }

  predicate IsCoefficient(bits: seq<bool>, e: nat)
    requires e < |bits|
  {
    bits[|bits| - 1 - e]
  }

  /** The bits as coefficients, highest first. */
  function MessagePoly(bits: seq<bool>): Poly {
    set e: nat | e < |bits| && IsCoefficient(bits, e)
  }

  function TimesX32(p: Poly): Poly {
    set e | e in p :: e + 32
  }

  lemma ShiftedBy32(p: Poly, e: nat)
    ensures e in TimesX32(p) <==> e >= 32 && e - 32 in p
  {
    if e >= 32 && e - 32 in p {
      assert (e - 32) + 32 in TimesX32(p);
    }
  }

  /** For at least 32 bits: x^32 times the message with its first 32 bits complemented. */
  lemma FlippedMessage(bits: seq<bool>)
    requires |bits| >= 32
    ensures PublishedDividend(bits) == TimesX32(MessagePoly(FirstBitsFlipped(bits)))
  {
    var flipped := FirstBitsFlipped(bits);
    forall e: nat
      ensures e in PublishedDividend(bits) <==> e in TimesX32(MessagePoly(flipped))
    {
      ShiftedBy32(MessagePoly(flipped), e);
      if 32 <= e < |bits| + 32 {
        var i := |bits| + 31 - e;
        assert flipped[i] == if i < 32 then !bits[i] else bits[i];
        assert IsCoefficient(flipped, e - 32) == flipped[i];
      }
    }
  }

  // ---------- the program's start value and final inversion give this checksum ----------

  lemma OnesHalves(r: bv32)
    requires r == 0xffff_ffff
    ensures Halves(r, 4) == 0xfffffff
    ensures Halves(r, 8) == 0xffffff
    ensures Halves(r, 12) == 0xfffff
    ensures Halves(r, 16) == 0xffff
    ensures Halves(r, 20) == 0xfff
    ensures Halves(r, 24) == 0xff
    ensures Halves(r, 28) == 0xf
  {
    HalveFour(r, 0);
    HalveFour(r, 4);
    HalveFour(r, 8);
    HalveFour(r, 12);
    HalveFour(r, 16);
    HalveFour(r, 20);
    HalveFour(r, 24);
  }

  /** A register of all ones has every term below x^32. */
  lemma OnesTerms(r: bv32, e: nat)
    requires r == 0xffff_ffff && e < 32
    ensures e in RegisterPoly(r)
  {
    OnesHalves(r);
    FourTerms(r, 0xffffffff, 31);
    FourTerms(r, 0xfffffff, 27);
    FourTerms(r, 0xffffff, 23);
    FourTerms(r, 0xfffff, 19);
    FourTerms(r, 0xffff, 15);
    FourTerms(r, 0xfff, 11);
    FourTerms(r, 0xff, 7);
    FourTerms(r, 0xf, 3);
  }

  lemma StartFlipsHead(bits: seq<bool>)
    ensures Dividend(ALL_ONES, bits) == PublishedDividend(bits)
  {
    forall e: nat
      ensures e in Dividend(ALL_ONES, bits) <==> e in PublishedDividend(bits)
    {
      DividendExponents(ALL_ONES, bits, e);
      if |bits| <= e < |bits| + 32 {
        OnesTerms(ALL_ONES, e - |bits|);
      }
      if e >= |bits| {
        assert e - |bits| in RegisterPoly(ALL_ONES) ==> e - |bits| < 32;
      }
      if 32 <= e < 32 + |bits| {
        assert |bits| - 1 - (e - 32) == |bits| + 31 - e;
      }
    }
  }

  lemma ComplementBack(register: bv32, c: bv32)
    ensures c == Xor(register, ALL_ONES) <==> c ^ 0xffff_ffff == register
  {
    assert c ^ 0xffff_ffff == Xor(c, ALL_ONES);
    XorAssociative(register, ALL_ONES, ALL_ONES);
    XorAssociative(c, ALL_ONES, ALL_ONES);
    XorZero(register);
    XorZero(c);
    XorZero(ALL_ONES);
  }

  /** The checksum of a message is the one and only value whose complement is the remainder. */
  lemma ChecksumIsPublished(message: Bytes, c: bv32)
    ensures c == Checksum(message) <==> IsPublished(message, c)
  {
    StartFlipsHead(Bits(message));
    ComplementBack(Crc(ALL_ONES, message), c);
    CrcIsTheRemainder(ALL_ONES, message, c ^ 0xffff_ffff);
  }

  /** For messages of at least four bytes, in the words of the standard. */
  lemma LongChecksumIsPublished(message: Bytes, c: bv32)
    requires |message| >= 4
    ensures c == Checksum(message) <==>
            IsRemainder(TimesX32(MessagePoly(FirstBitsFlipped(Bits(message)))), RegisterPoly(c ^ 0xffff_ffff))
  {
    ChecksumIsPublished(message, c);
    FlippedMessage(Bits(message));
  }

  // ---------- published values ----------

  /** Eight turns of the table's inner loop. */
  function EightTurns(r: bv32): bv32 {
    MaskedStep(MaskedStep(MaskedStep(MaskedStep(MaskedStep(MaskedStep(MaskedStep(MaskedStep(r))))))))
  }

  lemma EightTurnsAreSteps(r: bv32)
    ensures EightTurns(r) == BitSteps(r, 8)
  {
    var r2 := BitStep(BitStep(r));
    var r4 := BitStep(BitStep(r2));
    var r6 := BitStep(BitStep(r4));
    forall s: bv32
      ensures MaskedStep(s) == BitStep(s)
    {
      MaskedStepIsBitStep(s);
    }
    assert BitSteps(r, 8) == BitSteps(r2, 6);
    assert BitSteps(r2, 6) == BitSteps(r4, 4);
    assert BitSteps(r4, 4) == BitSteps(r6, 2);
    assert BitSteps(r6, 2) == BitSteps(BitStep(BitStep(r6)), 0);
  }

  lemma FedByte(bytes: Bytes, b: Byte, before: bv32, after: bv32)
    requires Crc(ALL_ONES, bytes) == before && EightTurns(Xor(before, b as bv32)) == after
    ensures Crc(ALL_ONES, bytes + [b]) == after
  {
    CrcAppendByte(ALL_ONES, bytes, b);
    EightTurnsAreSteps(Xor(before, b as bv32));
  }

  /** The check value of the digits 1 to 9. */
  lemma CheckValue()
    ensures Checksum([0x31, 0x32, 0x33, 0x34, 0x35, 0x36, 0x37, 0x38, 0x39]) == 0xe306_9283
  {
    FedByte([], 0x31, 0xffffffff, 0x6f0a661c);
    var m1 := [] + [0x31];
    FedByte(m1, 0x32, 0x6f0a661c, 0x8caa3b9f);
    var m2 := m1 + [0x32];
    FedByte(m2, 0x33, 0x8caa3b9f, 0xef84d04d);
    var m3 := m2 + [0x33];
    FedByte(m3, 0x34, 0xef84d04d, 0x09c50b11);
    var m4 := m3 + [0x34];
    FedByte(m4, 0x35, 0x09c50b11, 0xe72edcca);
    var m5 := m4 + [0x35];
    FedByte(m5, 0x36, 0xe72edcca, 0xbeca8e79);
    var m6 := m5 + [0x36];
    FedByte(m6, 0x37, 0xbeca8e79, 0xedbd6815);
    var m7 := m6 + [0x37];
    FedByte(m7, 0x38, 0xedbd6815, 0x9f787f65);
    var m8 := m7 + [0x38];
    FedByte(m8, 0x39, 0x9f787f65, 0x1cf96d7c);
    var m9 := m8 + [0x39];
    assert m9 == [0x31, 0x32, 0x33, 0x34, 0x35, 0x36, 0x37, 0x38, 0x39];
  }
}
