/** The accelerated update: eight bytes per CRC32 instruction, then a byte tail. */
module Crc32cWide {
  import opened Outcomes
  import opened Words
  import opened Crc32c

  predicate Odd64(v: bv64) {
    v & 1 == 1
  }

  function Half64(v: bv64): bv64 {
    v >> 1
  }

  /** The low `n` bits of a double word, least significant first. */
  function DoubleWordBits(v: bv64, n: nat): (bits: seq<bool>)
    ensures |bits| == n
    decreases n, v
  {
    if n == 0 then [] else [Odd64(v)] + DoubleWordBits(Half64(v), n - 1)
  }

  /** The CRC32 instruction on a byte operand: bit-serial steps over the operand's bits. */
  function Crc32U8(state: bv32, operand: Byte): bv32 {
    Feed(state, WordBits(operand as bv32, 8))
  }

  function Widen(w: bv32): bv64 {
    w as bv64
  }

  function Narrow(v: bv64): bv32 {
    (v & 0xffff_ffff) as bv32
  }

  function LowByte(v: bv64): Byte {
    (v & 0xff) as bv8
  }

  function DropByte(v: bv64): bv64 {
    v >> 8
  }

  /** The CRC32 instruction on a 64-bit operand; the upper half of the destination is cleared. */
  function Crc32U64(state: bv64, operand: bv64): bv64 {
    Widen(Feed(Narrow(state), DoubleWordBits(operand, 64)))
  }

  /** An eight-byte load on a little-endian machine. */
  function LoadWord(b: Bytes): bv64
    requires |b| == 8
  {
    (b[0] as bv64) | (b[1] as bv64 << 8) | (b[2] as bv64 << 16) | (b[3] as bv64 << 24)
    | (b[4] as bv64 << 32) | (b[5] as bv64 << 40) | (b[6] as bv64 << 48) | (b[7] as bv64 << 56)
  }

  // ---------- a double word is its bytes, lowest first ----------

  lemma NarrowWiden(w: bv32)
    ensures Narrow(Widen(w)) == w
  {
  }

  lemma PackedBytes(b0: bv8, b1: bv8, b2: bv8, b3: bv8, b4: bv8, b5: bv8, b6: bv8, b7: bv8)
    ensures var v := (b0 as bv64) | (b1 as bv64 << 8) | (b2 as bv64 << 16) | (b3 as bv64 << 24)
              | (b4 as bv64 << 32) | (b5 as bv64 << 40) | (b6 as bv64 << 48) | (b7 as bv64 << 56);
            && (v & 0xff) as bv8 == b0
            && ((v >> 8) & 0xff) as bv8 == b1
            && (((v >> 8) >> 8) & 0xff) as bv8 == b2
            && ((((v >> 8) >> 8) >> 8) & 0xff) as bv8 == b3
            && (((((v >> 8) >> 8) >> 8) >> 8) & 0xff) as bv8 == b4
            && ((((((v >> 8) >> 8) >> 8) >> 8) >> 8) & 0xff) as bv8 == b5
            && (((((((v >> 8) >> 8) >> 8) >> 8) >> 8) >> 8) & 0xff) as bv8 == b6
            && ((((((((v >> 8) >> 8) >> 8) >> 8) >> 8) >> 8) >> 8) & 0xff) as bv8 == b7
  {
  }

  lemma LoadedBytes(b: Bytes, v: bv64)
    requires |b| == 8
    requires v == LoadWord(b)
    ensures var v2 := DropByte(DropByte(v));
            var v4 := DropByte(DropByte(v2));
            var v6 := DropByte(DropByte(v4));
            && LowByte(v) == b[0] && LowByte(DropByte(v)) == b[1]
            && LowByte(v2) == b[2] && LowByte(DropByte(v2)) == b[3]
            && LowByte(v4) == b[4] && LowByte(DropByte(v4)) == b[5]
            && LowByte(v6) == b[6] && LowByte(DropByte(v6)) == b[7]
  {
    PackedBytes(b[0], b[1], b[2], b[3], b[4], b[5], b[6], b[7]);
  }

  predicate AgreeOnLowBits(v: bv64, w: bv32, mask: bv64) {
    v & mask == (w as bv64) & mask
  }

  lemma AgreementHalves(v: bv64, w: bv32, mask: bv64)
    requires AgreeOnLowBits(v, w, mask)
    requires mask & 1 == 1
    ensures Odd64(v) <==> Odd(w)
    ensures AgreeOnLowBits(Half64(v), Half(w), mask >> 1)
  {
  }

  function HalfTimes(v: bv64, k: nat): bv64
    decreases k, v
  {
    if k == 0 then v else HalfTimes(Half64(v), k - 1)
  }

  /** The low `k` bits agree, one by one. */
  predicate AgreeBitwise(v: bv64, w: bv32, k: nat)
    decreases k, v, w
  {
    k > 0 ==> (Odd64(v) <==> Odd(w)) && AgreeBitwise(Half64(v), Half(w), k - 1)
  }

  lemma NibbleAgrees(v: bv64, w: bv32)
    requires AgreeOnLowBits(v, w, 0xf)
    ensures AgreeBitwise(v, w, 4)
  {
    var v1, w1 := Half64(v), Half(w);
    var v2, w2 := Half64(v1), Half(w1);
    var v3, w3 := Half64(v2), Half(w2);
    AgreementHalves(v, w, 0xf);
    AgreementHalves(v1, w1, 0x7);
    AgreementHalves(v2, w2, 0x3);
    AgreementHalves(v3, w3, 0x1);
    assert AgreeBitwise(v3, w3, 1);
    assert AgreeBitwise(v2, w2, 2);
    assert AgreeBitwise(v1, w1, 3);
  }

  lemma ByteAgrees(v: bv64, w: bv32)
    requires AgreeOnLowBits(v, w, 0xff)
    ensures AgreeBitwise(v, w, 8)
  {
    var v1, w1 := Half64(v), Half(w);
    var v2, w2 := Half64(v1), Half(w1);
    var v3, w3 := Half64(v2), Half(w2);
    var v4, w4 := Half64(v3), Half(w3);
    AgreementHalves(v, w, 0xff);
    AgreementHalves(v1, w1, 0x7f);
    AgreementHalves(v2, w2, 0x3f);
    AgreementHalves(v3, w3, 0x1f);
    NibbleAgrees(v4, w4);
    assert AgreeBitwise(v3, w3, 5);
    assert AgreeBitwise(v2, w2, 6);
    assert AgreeBitwise(v1, w1, 7);
  }

  lemma ByteOfDoubleWord(v: bv64)
    ensures AgreeOnLowBits(v, LowByte(v) as bv32, 0xff)
  {
  }

  function Quarter64(v: bv64): bv64 {
    v >> 2
  }

  function Sixteenth64(v: bv64): bv64 {
    v >> 4
  }

  lemma HalveTwice(v: bv64)
    ensures Half64(Half64(v)) == Quarter64(v)
  {
  }

  lemma QuarterTwice(v: bv64)
    ensures Quarter64(Quarter64(v)) == Sixteenth64(v)
  {
  }

  lemma SixteenthTwice(v: bv64)
    ensures Sixteenth64(Sixteenth64(v)) == DropByte(v)
  {
  }

  lemma HalfTwoTimes(v: bv64)
    ensures HalfTimes(v, 2) == Half64(Half64(v))
  {
    assert HalfTimes(Half64(v), 1) == HalfTimes(Half64(Half64(v)), 0);
  }

  lemma {:induction false} HalfTimesCompose(v: bv64, a: nat, b: nat)
    ensures HalfTimes(v, a + b) == HalfTimes(HalfTimes(v, a), b)
    decreases a
  {
    if a > 0 {
      HalfTimesCompose(Half64(v), a - 1, b);
    }
  }

  lemma HalfEightTimes(v: bv64)
    ensures HalfTimes(v, 8) == DropByte(v)
  {
    forall w: bv64
      ensures HalfTimes(w, 2) == Quarter64(w)
    {
      HalfTwoTimes(w);
      HalveTwice(w);
    }
    forall w: bv64
      ensures HalfTimes(w, 4) == Sixteenth64(w)
    {
      HalfTimesCompose(w, 2, 2);
      QuarterTwice(w);
    }
    HalfTimesCompose(v, 4, 4);
    SixteenthTwice(v);
  }

  lemma {:induction false} PeelBits(v: bv64, w: bv32, k: nat, n: nat)
    requires AgreeBitwise(v, w, k)
    ensures DoubleWordBits(v, k + n) == WordBits(w, k) + DoubleWordBits(HalfTimes(v, k), n)
    decreases k
  {
    if k > 0 {
      PeelBits(Half64(v), Half(w), k - 1, n);
      assert DoubleWordBits(v, k + n) == [Odd64(v)] + DoubleWordBits(Half64(v), k - 1 + n);
    }
  }

  lemma PeelByte(v: bv64, n: nat)
    ensures DoubleWordBits(v, 8 + n) == ByteBits(LowByte(v)) + DoubleWordBits(DropByte(v), n)
  {
    ByteOfDoubleWord(v);
    ByteAgrees(v, LowByte(v) as bv32);
    PeelBits(v, LowByte(v) as bv32, 8, n);
    HalfEightTimes(v);
  }

  lemma BitsFront(b: Byte, rest: Bytes)
    ensures Bits([b] + rest) == ByteBits(b) + Bits(rest)
  {
    BitsOfOne(b);
    BitsAppend([b], rest);
  }

  /** The `count` low bytes of a double word, lowest first. */
  function DoubleWordBytes(v: bv64, count: nat): (b: Bytes)
    ensures |b| == count
    decreases count, v
  {
    if count == 0 then [] else [LowByte(v)] + DoubleWordBytes(DropByte(v), count - 1)
  }

  lemma {:induction false} DoubleWordBitsAreBytes(v: bv64, count: nat)
    ensures DoubleWordBits(v, 8 * count) == Bits(DoubleWordBytes(v, count))
    decreases count
  {
    if count > 0 {
      PeelByte(v, 8 * (count - 1));
      DoubleWordBitsAreBytes(DropByte(v), count - 1);
      BitsFront(LowByte(v), DoubleWordBytes(DropByte(v), count - 1));
      assert 8 * count == 8 + 8 * (count - 1);
    }
  }

  lemma PeelLoadedByte(v: bv64, b: Bytes, k: nat)
    requires |b| == 8 && k < 8
    requires LowByte(v) == b[k]
    requires DoubleWordBytes(DropByte(v), 7 - k) == b[k + 1..]
    ensures DoubleWordBytes(v, 8 - k) == b[k..]
  {
  }

  /** The memory order of a loaded word is its order of significance. */
  lemma LoadWordBytes(b: Bytes, v: bv64)
    requires |b| == 8
    requires v == LoadWord(b)
    ensures DoubleWordBytes(v, 8) == b
  {
    LoadedBytes(b, v);
    var v1 := DropByte(v);
    var v2 := DropByte(v1);
    var v3 := DropByte(v2);
    var v4 := DropByte(v3);
    var v5 := DropByte(v4);
    var v6 := DropByte(v5);
    var v7 := DropByte(v6);
    assert b[8..] == [];
    PeelLoadedByte(v7, b, 7);
    PeelLoadedByte(v6, b, 6);
    PeelLoadedByte(v5, b, 5);
    PeelLoadedByte(v4, b, 4);
    PeelLoadedByte(v3, b, 3);
    PeelLoadedByte(v2, b, 2);
    PeelLoadedByte(v1, b, 1);
    PeelLoadedByte(v, b, 0);
  }

  // ---------- the update loop ----------

  lemma WideStep(state: bv32, b: Bytes, value: bv64)
    requires |b| == 8
    requires value == LoadWord(b)
    ensures Crc32U64(Widen(state), value) == Widen(Crc(state, b))
  {
    NarrowWiden(state);
    LoadWordBytes(b, value);
    DoubleWordBitsAreBytes(value, 8);
  }

  lemma WideAdvance(initial: bv32, bytes: Bytes, offset: nat, value: bv64)
    requires offset + 8 <= |bytes|
    requires value == LoadWord(bytes[offset..offset + 8])
    ensures Crc32U64(Widen(Crc(initial, bytes[..offset])), value) == Widen(Crc(initial, bytes[..offset + 8]))
  {
    var done, chunk := bytes[..offset], bytes[offset..offset + 8];
    WideStep(Crc(initial, done), chunk, value);
    CrcAppend(initial, done, chunk);
    assert bytes[..offset + 8] == done + chunk;
  }

  lemma TailAdvance(initial: bv32, bytes: Bytes, offset: nat)
    requires offset < |bytes|
    ensures Crc32U8(Crc(initial, bytes[..offset]), bytes[offset]) == Crc(initial, bytes[..offset + 1])
  {
    assert bytes[..offset + 1] == bytes[..offset] + [bytes[offset]];
    CrcAppend(initial, bytes[..offset], [bytes[offset]]);
    BitsOfOne(bytes[offset]);
  }

  /** The word-at-a-time loop with its byte tail computes the same register as the byte loop. */
  method X86Crc32cUpdate(initial: bv32, bytes: Bytes) returns (state: bv32)
    ensures state == Crc(initial, bytes)
  {
    var offset := 0;
    var wideState := Widen(initial);
    while |bytes| - offset >= 8
      invariant 0 <= offset <= |bytes|
      invariant wideState == Widen(Crc(initial, bytes[..offset]))
    {
      var value := LoadWord(bytes[offset..offset + 8]);
      WideAdvance(initial, bytes, offset, value);
      wideState := Crc32U64(wideState, value);
      offset := offset + 8;
    }
    NarrowWiden(Crc(initial, bytes[..offset]));
    state := Narrow(wideState);
    while offset < |bytes|
      invariant 0 <= offset <= |bytes|
      invariant state == Crc(initial, bytes[..offset])
    {
      TailAdvance(initial, bytes, offset);
      state := Crc32U8(state, bytes[offset]);
      offset := offset + 1;
    }
    assert bytes[..offset] == bytes;
  }
}
