/**
 * CRC32C: the reflected Castagnoli checksum, its lookup table, the byte-at-a-time loop and the
 * incremental hasher.
 */
module Crc32c {
  import opened Outcomes
  import opened Words

  const POLYNOMIAL: bv32 := 0x82f6_3b78
  const ALL_ONES: bv32 := 0xffff_ffff

  // ---------- reference definition ----------

  /** One bit-serial step on the reflected register. */
  function BitStep(r: bv32): bv32 {
    if Odd(r) then Xor(Half(r), POLYNOMIAL) else Half(r)
  }

  function BitSteps(r: bv32, n: nat): bv32
    decreases n, r
  {
    if n == 0 then r else BitSteps(BitStep(r), n - 1)
  }

  function BitWord(bit: bool): bv32 {
    if bit then 1 else 0
  }

  /** The register after one message bit. */
  function FeedBit(state: bv32, bit: bool): bv32 {
    BitStep(Xor(state, BitWord(bit)))
  }

  /** The register after a string of message bits. */
  function Feed(state: bv32, bits: seq<bool>): bv32
    decreases |bits|
  {
    if |bits| == 0 then state
    else FeedBit(Feed(state, bits[..|bits| - 1]), bits[|bits| - 1])
  }

  /** The low `n` bits of a word, least significant first. */
  function WordBits(w: bv32, n: nat): (bits: seq<bool>)
    ensures |bits| == n
    decreases n, w
  {
    if n == 0 then [] else [Odd(w)] + WordBits(Half(w), n - 1)
  }

  /** The bits of a byte in transmission order, least significant first. */
  function ByteBits(b: Byte): (bits: seq<bool>)
    ensures |bits| == 8
  {
    WordBits(b as bv32, 8)
  }

  function Bits(bytes: Bytes): (bits: seq<bool>)
    ensures |bits| == 8 * |bytes|
    decreases |bytes|
  {
    if |bytes| == 0 then []
    else Bits(bytes[..|bytes| - 1]) + ByteBits(bytes[|bytes| - 1])
  }

  /** The register after a byte string, bit by bit and without any table. */
  function Crc(state: bv32, bytes: Bytes): bv32 {
    Feed(state, Bits(bytes))
  }

  /** The published checksum: the register starts at all ones and is inverted at the end. */
  function Checksum(bytes: Bytes): bv32 {
    Xor(Crc(ALL_ONES, bytes), ALL_ONES)
  }

  // ---------- algebra of steps ----------

  lemma BitStepLinear(a: bv32, b: bv32)
    ensures BitStep(Xor(a, b)) == Xor(BitStep(a), BitStep(b))
  {
    XorHalf(a, b);
    XorOdd(a, b);
    var x, y := Half(a), Half(b);
    if Odd(a) {
      if Odd(b) {
        XorCancelBoth(x, y, POLYNOMIAL);
      } else {
        XorSwapRight(x, y, POLYNOMIAL);
      }
    } else {
      if Odd(b) {
        XorAssociative(x, y, POLYNOMIAL);
      } else {
      }
    }
  }

  /** Bit 31 of the polynomial is set, so a step can be undone. */
  lemma BitStepInjective(a: bv32, b: bv32)
    requires BitStep(a) == BitStep(b)
    ensures a == b
  {
  }

  lemma {:induction false} BitStepsLinear(a: bv32, b: bv32, n: nat)
    ensures BitSteps(Xor(a, b), n) == Xor(BitSteps(a, n), BitSteps(b, n))
    decreases n
  {
    if n > 0 {
      BitStepLinear(a, b);
      BitStepsLinear(BitStep(a), BitStep(b), n - 1);
    }
  }

  lemma FeedBitLinear(a: bv32, b: bv32, p: bool, q: bool)
    ensures FeedBit(Xor(a, b), p != q) == Xor(FeedBit(a, p), FeedBit(b, q))
  {
    var x, y := BitWord(p), BitWord(q);
    assert Xor(x, y) == BitWord(p != q);
    XorExchange(a, b, x, y);
    BitStepLinear(Xor(a, x), Xor(b, y));
  }

  lemma FeedBitInjective(a: bv32, b: bv32, bit: bool)
    requires FeedBit(a, bit) == FeedBit(b, bit)
    ensures a == b
  {
    BitStepInjective(Xor(a, BitWord(bit)), Xor(b, BitWord(bit)));
    XorInjective(a, b, BitWord(bit));
  }

  lemma {:induction false} FeedAppend(state: bv32, first: seq<bool>, second: seq<bool>)
    ensures Feed(state, first + second) == Feed(Feed(state, first), second)
    decreases |second|
  {
    if |second| == 0 {
      assert first + second == first;
    } else {
      var n := |second| - 1;
      var whole := first + second;
      assert whole[..|whole| - 1] == first + second[..n];
      FeedAppend(state, first, second[..n]);
    }
  }

  lemma {:induction false} BitsAppend(first: Bytes, second: Bytes)
    ensures Bits(first + second) == Bits(first) + Bits(second)
    decreases |second|
  {
    if |second| == 0 {
      assert first + second == first;
    } else {
      var n := |second| - 1;
      var whole := first + second;
      assert whole[..|whole| - 1] == first + second[..n];
      BitsAppend(first, second[..n]);
    }
  }

  lemma BitsOfOne(b: Byte)
    ensures Bits([b]) == ByteBits(b)
  {
    assert [b][..0] == [];
  }

  /** Fragmented updates reach the same register as one contiguous update. */
  lemma CrcAppend(state: bv32, first: Bytes, second: Bytes)
    ensures Crc(state, first + second) == Crc(Crc(state, first), second)
  {
    BitsAppend(first, second);
    FeedAppend(state, Bits(first), Bits(second));
  }

  function XorBits(p: seq<bool>, q: seq<bool>): (r: seq<bool>)
    requires |p| == |q|
    ensures |r| == |p|
  {
    seq(|p|, i requires 0 <= i < |p| => p[i] != q[i])
  }

  /** The register is linear over GF(2) in the starting register and the message together. */
  lemma {:induction false} FeedLinear(a: bv32, b: bv32, p: seq<bool>, q: seq<bool>)
    requires |p| == |q|
    ensures Feed(Xor(a, b), XorBits(p, q)) == Xor(Feed(a, p), Feed(b, q))
    decreases |p|
  {
    if |p| > 0 {
      var n := |p| - 1;
      assert XorBits(p, q)[..n] == XorBits(p[..n], q[..n]);
      FeedLinear(a, b, p[..n], q[..n]);
      var x, y := Feed(a, p[..n]), Feed(b, q[..n]);
      FeedBitLinear(x, y, p[n], q[n]);
      assert Feed(Xor(a, b), XorBits(p, q)) == FeedBit(Xor(x, y), p[n] != q[n]);
    }
  }

  lemma {:induction false} FeedInjective(a: bv32, b: bv32, bits: seq<bool>)
    requires Feed(a, bits) == Feed(b, bits)
    ensures a == b
    decreases |bits|
  {
    if |bits| > 0 {
      var n := |bits| - 1;
      FeedBitInjective(Feed(a, bits[..n]), Feed(b, bits[..n]), bits[n]);
      FeedInjective(a, b, bits[..n]);
    }
  }

  // ---------- bytes at a time ----------

  function Halves(w: bv32, n: nat): bv32
    decreases n, w
  {
    if n == 0 then w else Halves(Half(w), n - 1)
  }

  lemma SplitLowBit(w: bv32)
    ensures Xor(BitWord(Odd(w)), w & 0xffff_fffe) == w
    ensures !Odd(w & 0xffff_fffe)
    ensures Half(w & 0xffff_fffe) == Half(w)
  {
    assert (if w & 1 == 1 then 1 else 0) ^ (w & 0xffff_fffe) == w;
  }

  /** A word mixed into the register in advance is consumed one bit per step. */
  lemma StepConsumesBit(state: bv32, w: bv32)
    ensures BitStep(Xor(state, w)) == Xor(FeedBit(state, Odd(w)), Half(w))
  {
    var low, rest := BitWord(Odd(w)), w & 0xffff_fffe;
    SplitLowBit(w);
    XorAssociative(state, low, rest);
    BitStepLinear(Xor(state, low), rest);
  }

  lemma FeedFront(state: bv32, bit: bool, rest: seq<bool>)
    ensures Feed(state, [bit] + rest) == Feed(FeedBit(state, bit), rest)
  {
    assert [bit][..0] == [];
    assert Feed(state, [bit]) == FeedBit(Feed(state, []), bit);
    FeedAppend(state, [bit], rest);
  }

  lemma {:induction false} StepsConsumeWord(state: bv32, w: bv32, n: nat)
    ensures BitSteps(Xor(state, w), n) == Xor(Feed(state, WordBits(w, n)), Halves(w, n))
    decreases n
  {
    if n > 0 {
      var next := FeedBit(state, Odd(w));
      StepConsumesBit(state, w);
      StepsConsumeWord(next, Half(w), n - 1);
      FeedFront(state, Odd(w), WordBits(Half(w), n - 1));
    }
  }

  lemma ByteConsumed(b: Byte)
    ensures Halves(b as bv32, 8) == 0
  {
    var w := b as bv32;
    assert Half(Half(Half(Half(Half(Half(Half(Half(w)))))))) == 0;
    calc {
      Halves(w, 8);
      Halves(Half(Half(w)), 6);
      Halves(Half(Half(Half(Half(w)))), 4);
      Halves(Half(Half(Half(Half(Half(Half(w)))))), 2);
      Halves(Half(Half(Half(Half(Half(Half(Half(Half(w)))))))), 0);
    }
  }

  /** Eight bit-serial steps after mixing in the whole byte equal feeding its bits one at a time. */
  lemma FeedByte(state: bv32, b: Byte)
    ensures Feed(state, ByteBits(b)) == BitSteps(Xor(state, b as bv32), 8)
  {
    StepsConsumeWord(state, b as bv32, 8);
    ByteConsumed(b);
    XorZero(Feed(state, ByteBits(b)));
  }

  lemma CrcAppendByte(state: bv32, bytes: Bytes, b: Byte)
    ensures Crc(state, bytes + [b]) == BitSteps(Xor(Crc(state, bytes), b as bv32), 8)
  {
    CrcAppend(state, bytes, [b]);
    BitsOfOne(b);
    FeedByte(Crc(state, bytes), b);
  }

  // ---------- lookup table ----------

  /** What the lookup table holds at each byte value: the register after eight steps from that value. */
  function TableEntry(index: Byte): bv32 {
    BitSteps(index as bv32, 8)
  }

  lemma SplitLowByte(r: bv32)
    ensures Xor(r & 0xff, r & 0xffff_ff00) == r
    ensures (r & 0xff) as bv8 as bv32 == r & 0xff
    ensures Half(Half(Half(Half(Half(Half(Half(Half(r & 0xffff_ff00)))))))) == r >> 8
    ensures var h := r & 0xffff_ff00;
            && !Odd(h) && !Odd(Half(h)) && !Odd(Half(Half(h))) && !Odd(Half(Half(Half(h))))
            && !Odd(Half(Half(Half(Half(h))))) && !Odd(Half(Half(Half(Half(Half(h))))))
            && !Odd(Half(Half(Half(Half(Half(Half(h)))))))
            && !Odd(Half(Half(Half(Half(Half(Half(Half(h))))))))
  {
  }

  /** A register whose low byte is clear is only shifted by eight steps. */
  lemma HighBytesShift(r: bv32)
    ensures BitSteps(r & 0xffff_ff00, 8) == r >> 8
  {
    SplitLowByte(r);
    var h := r & 0xffff_ff00;
    calc {
      BitSteps(h, 8);
      BitSteps(Half(Half(h)), 6);
      BitSteps(Half(Half(Half(Half(h)))), 4);
      BitSteps(Half(Half(Half(Half(Half(Half(h)))))), 2);
      BitSteps(Half(Half(Half(Half(Half(Half(Half(Half(h)))))))), 0);
      r >> 8;
    }
  }

  /** One table lookup does the work of eight bit-serial steps. */
  lemma TableStep(r: bv32)
    ensures BitSteps(r, 8) == Xor(TableEntry((r & 0xff) as bv8), r >> 8)
  {
    SplitLowByte(r);
    HighBytesShift(r);
    BitStepsLinear(r & 0xff, r & 0xffff_ff00, 8);
  }

  lemma {:induction false} StepOnceMore(r: bv32, n: nat)
    ensures BitSteps(r, n + 1) == BitStep(BitSteps(r, n))
    decreases n
  {
    if n > 0 {
      StepOnceMore(BitStep(r), n - 1);
    }
  }

  /** The branch-free form: the mask is all ones exactly when the low bit is set. */
  function MaskedStep(r: bv32): bv32 {
    (r >> 1) ^ (POLYNOMIAL & (0 - (r & 1)))
  }

  lemma MaskedStepIsBitStep(r: bv32)
    ensures MaskedStep(r) == BitStep(r)
  {
    assert (0x82f6_3b78 & (0 - (r & 1))) == if r & 1 == 1 then 0x82f6_3b78 else 0;
  }

  ghost predicate IsTable(entries: seq<bv32>) {
    |entries| == 256 && forall i | 0 <= i < 256 :: entries[i] == TableEntry(i as bv8)
  }

  method MakeCrc32cTable() returns (table: array<bv32>)
    ensures fresh(table)
    ensures IsTable(table[..])
  {
    table := new bv32[256](_ => 0);
    var index := 0;
    while index < table.Length
      invariant 0 <= index <= table.Length == 256
      invariant forall i | 0 <= i < index :: table[i] == TableEntry(i as bv8)
    {
      var remainder := TableRemainder(index as bv8);
      table[index] := remainder;
      index := index + 1;
    }
  }

  /** The inner loop of the table construction. */
  method TableRemainder(index: Byte) returns (remainder: bv32)
    ensures remainder == TableEntry(index)
  {
    remainder := index as bv32;
    for bit := 0 to 8
      invariant remainder == BitSteps(index as bv32, bit)
    {
      MaskedStepIsBitStep(remainder);
      StepOnceMore(index as bv32, bit);
      remainder := MaskedStep(remainder);
    }
  }

  function LookupStep(entries: seq<bv32>, state: bv32, b: Byte): bv32
    requires |entries| == 256
  {
    Xor(entries[((state ^ (b as bv32)) & 0xff) as bv8 as int], state >> 8)
  }

  lemma MixedHighBytes(state: bv32, b: Byte)
    ensures Xor(state, b as bv32) >> 8 == state >> 8
  {
  }

  lemma ByteIndex(b: Byte)
    ensures 0 <= b as int < 256 && (b as int) as bv8 == b
  {
  }

  lemma LookupStepCorrect(entries: seq<bv32>, state: bv32, b: Byte)
    requires IsTable(entries)
    ensures LookupStep(entries, state, b) == BitSteps(Xor(state, b as bv32), 8)
  {
    var mixed := Xor(state, b as bv32);
    var index := (mixed & 0xff) as bv8;
    TableStep(mixed);
    MixedHighBytes(state, b);
    ByteIndex(index);
    assert entries[index as int] == TableEntry(index);
  }

  /** The byte-at-a-time loop computes the bit-serial register. */
  method PortableCrc32cUpdate(table: seq<bv32>, initial: bv32, bytes: Bytes) returns (state: bv32)
    requires IsTable(table)
    ensures state == Crc(initial, bytes)
  {
    state := initial;
    for i := 0 to |bytes|
      invariant state == Crc(initial, bytes[..i])
    {
      assert bytes[..i + 1] == bytes[..i] + [bytes[i]];
      CrcAppendByte(initial, bytes[..i], bytes[i]);
      LookupStepCorrect(table, state, bytes[i]);
      state := LookupStep(table, state, bytes[i]);
    }
    assert bytes[..|bytes|] == bytes;
  }
}
