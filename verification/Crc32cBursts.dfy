/**
 * Burst detection: two messages of one length that differ, but only inside a window of at most 32
 * consecutive bits, never reach the same register.
 */
module Crc32cBursts {
  import opened Outcomes
  import opened Words
  import opened Crc32c

  // ---------- how far a difference can reach back ----------

  lemma {:induction false} HalvesOfZero(n: nat)
    ensures Halves(0, n) == 0
    decreases n
  {
    assert Half(0) == 0;
    if n > 0 {
      HalvesOfZero(n - 1);
    }
  }

  lemma {:induction false} HalvesCompose(w: bv32, m: nat, n: nat)
    ensures Halves(w, m + n) == Halves(Halves(w, m), n)
    decreases m
  {
    if m > 0 {
      HalvesCompose(Half(w), m - 1, n);
    }
  }

  predicate AtLeast(a: bv32, b: bv32) {
    a >= b
  }

  lemma HalfMonotone(a: bv32, b: bv32)
    requires AtLeast(a, b)
    ensures AtLeast(Half(a), Half(b))
  {
  }

  lemma {:induction false} HalvesMonotone(a: bv32, b: bv32, n: nat)
    requires AtLeast(a, b)
    ensures AtLeast(Halves(a, n), Halves(b, n))
    decreases n
  {
    if n > 0 {
      HalfMonotone(a, b);
      HalvesMonotone(Half(a), Half(b), n - 1);
    }
  }

  /** A register whose top bit is set survives 31 halvings. */
  lemma TopBitRemains(a: bv32, n: nat)
    requires a >= 0x8000_0000
    requires n <= 31
    ensures Halves(a, n) != 0
  {
    calc {
      Halves(0x8000_0000, 31);
      Halves(0x0800_0000, 27);
      Halves(0x0080_0000, 23);
      Halves(0x0008_0000, 19);
      Halves(0x0000_8000, 15);
      Halves(0x0000_0800, 11);
      Halves(0x0000_0080, 7);
      Halves(0x0000_0008, 3);
      1;
    }
    HalvesMonotone(a, 0x8000_0000, 31);
    HalvesCompose(a, n, 31 - n);
    HalvesOfZero(31 - n);
  }

  lemma OddStepSetsTopBit(r: bv32)
    requires Odd(r)
    ensures BitStep(r) >= 0x8000_0000
  {
    assert (r >> 1) ^ 0x82f6_3b78 >= 0x8000_0000;
  }

  lemma BitWordVanishes(r: bv32, bit: bool)
    ensures Half(Xor(r, BitWord(bit))) == Half(r)
  {
  }

  /** If the register is below 2^n after one bit, it was below 2^(n+1) before it. */
  lemma SmallStepBack(r: bv32, bit: bool, n: nat)
    requires n <= 31
    requires Halves(FeedBit(r, bit), n) == 0
    ensures Halves(r, n + 1) == 0
  {
    var mixed := Xor(r, BitWord(bit));
    BitWordVanishes(r, bit);
    if Odd(mixed) {
      OddStepSetsTopBit(mixed);
      TopBitRemains(BitStep(mixed), n);
    }
  }

  /** Two registers that meet within n <= 31 - k bits differ only below 2^(k + n). */
  lemma {:induction false} DifferenceReachesBack(x: bv32, y: bv32, p: seq<bool>, q: seq<bool>, k: nat)
    requires |p| == |q|
    requires k + |p| <= 32
    requires Halves(Xor(Feed(x, p), Feed(y, q)), k) == 0
    ensures Halves(Xor(x, y), k + |p|) == 0
    decreases |p|
  {
    if |p| > 0 {
      var n := |p| - 1;
      var u, v := Feed(x, p[..n]), Feed(y, q[..n]);
      assert Feed(x, p) == FeedBit(u, p[n]) && Feed(y, q) == FeedBit(v, q[n]);
      FeedBitLinear(u, v, p[n], q[n]);
      SmallStepBack(Xor(u, v), p[n] != q[n], k);
      DifferenceReachesBack(x, y, p[..n], q[..n], k + 1);
    }
  }

  // ---------- bursts of bits ----------

  predicate DifferOnlyWithin(a: seq<bool>, b: seq<bool>, start: nat, width: nat)
    requires |a| == |b|
  {
    forall i | 0 <= i < |a| && !(start <= i < start + width) :: a[i] == b[i]
  }

  lemma {:induction false} FirstDifference(a: seq<bool>, b: seq<bool>) returns (p: nat)
    requires |a| == |b| && a != b
    ensures p < |a| && a[p] != b[p] && a[..p] == b[..p]
    decreases |a|
  {
    var n := |a| - 1;
    assert a == a[..n] + [a[n]] && b == b[..n] + [b[n]];
    if a[..n] == b[..n] {
      p := n;
    } else {
      p := FirstDifference(a[..n], b[..n]);
      assert a[..p] == a[..n][..p] && b[..p] == b[..n][..p];
    }
  }

  /** From one register, two bit strings of length at most 32 with different first bits never meet. */
  lemma DifferentFirstBit(state: bv32, p: seq<bool>, q: seq<bool>)
    requires 0 < |p| == |q| <= 32
    requires p[0] != q[0]
    ensures Feed(state, p) != Feed(state, q)
  {
    if Feed(state, p) == Feed(state, q) {
      var x, y := FeedBit(state, p[0]), FeedBit(state, q[0]);
      assert p == [p[0]] + p[1..] && q == [q[0]] + q[1..];
      FeedFront(state, p[0], p[1..]);
      FeedFront(state, q[0], q[1..]);
      XorZero(Feed(x, p[1..]));
      DifferenceReachesBack(x, y, p[1..], q[1..], 0);
      FeedBitLinear(state, state, p[0], q[0]);
      XorZero(state);
      XorZero(BitWord(true));
      assert Odd(BitWord(true));
      OddStepSetsTopBit(BitWord(true));
      TopBitRemains(Xor(x, y), |p| - 1);
    }
  }

  lemma BurstDetected(state: bv32, a: seq<bool>, b: seq<bool>, start: nat)
    requires |a| == |b| && a != b
    requires DifferOnlyWithin(a, b, start, 32)
    ensures Feed(state, a) != Feed(state, b)
  {
    var p := FirstDifference(a, b);
    var end := if p + 32 <= |a| then p + 32 else |a|;
    assert start <= p;
    var prefix, before := a[..p], Feed(state, a[..p]);
    assert a == prefix + a[p..end] + a[end..];
    assert b == prefix + b[p..end] + a[end..] by {
      assert b[end..] == a[end..];
    }
    FeedAppend(state, prefix + a[p..end], a[end..]);
    FeedAppend(state, prefix + b[p..end], a[end..]);
    FeedAppend(state, prefix, a[p..end]);
    FeedAppend(state, prefix, b[p..end]);
    DifferentFirstBit(before, a[p..end], b[p..end]);
    if Feed(state, a) == Feed(state, b) {
      FeedInjective(Feed(before, a[p..end]), Feed(before, b[p..end]), a[end..]);
    }
  }

  // ---------- bursts in byte strings ----------

  lemma {:induction false} WordBitsDetermine(v: bv32, w: bv32, n: nat)
    requires WordBits(v, n) == WordBits(w, n)
    requires Halves(v, n) == Halves(w, n)
    ensures v == w
    decreases n
  {
    if n > 0 {
      assert WordBits(v, n)[0] == Odd(v) && WordBits(w, n)[0] == Odd(w);
      assert WordBits(v, n)[1..] == WordBits(Half(v), n - 1);
      assert WordBits(w, n)[1..] == WordBits(Half(w), n - 1);
      WordBitsDetermine(Half(v), Half(w), n - 1);
      HalfAndParityDetermine(v, w);
    }
  }

  lemma HalfAndParityDetermine(v: bv32, w: bv32)
    requires Half(v) == Half(w)
    requires Odd(v) <==> Odd(w)
    ensures v == w
  {
  }

  lemma ByteBitsInjective(b: Byte, c: Byte)
    requires ByteBits(b) == ByteBits(c)
    ensures b == c
  {
    ByteConsumed(b);
    ByteConsumed(c);
    WordBitsDetermine(b as bv32, c as bv32, 8);
    ByteWidens(b, c);
  }

  lemma ByteWidens(b: Byte, c: Byte)
    requires b as bv32 == c as bv32
    ensures b == c
  {
  }

  lemma {:induction false} BitsInjective(a: Bytes, b: Bytes)
    requires Bits(a) == Bits(b)
    ensures a == b
    decreases |a|
  {
    if |a| > 0 {
      var n := |a| - 1;
      assert 8 * |a| == 8 * |b|;
      assert Bits(a)[8 * n..] == ByteBits(a[n]);
      assert Bits(b)[8 * n..] == ByteBits(b[n]);
      assert Bits(a)[..8 * n] == Bits(a[..n]);
      assert Bits(b)[..8 * n] == Bits(b[..n]);
      ByteBitsInjective(a[n], b[n]);
      BitsInjective(a[..n], b[..n]);
      assert a == a[..n] + [a[n]] && b == b[..n] + [b[n]];
    }
  }

  lemma {:induction false} BitOfByte(bytes: Bytes, i: nat)
    requires i < 8 * |bytes|
    ensures Bits(bytes)[i] == ByteBits(bytes[i / 8])[i % 8]
    decreases |bytes|
  {
    var n := |bytes| - 1;
    if i < 8 * n {
      BitOfByte(bytes[..n], i);
    }
  }

  /** The same theorem for whole bytes: damage confined to four consecutive bytes is a 32-bit burst. */
  lemma ByteBurstDetected(state: bv32, a: Bytes, b: Bytes, start: nat)
    requires |a| == |b| && a != b
    requires forall i | 0 <= i < |a| && !(start <= i < start + 4) :: a[i] == b[i]
    ensures Crc(state, a) != Crc(state, b)
  {
    if Bits(a) == Bits(b) {
      BitsInjective(a, b);
    }
    forall i | 0 <= i < |Bits(a)| && !(8 * start <= i < 8 * start + 32)
      ensures Bits(a)[i] == Bits(b)[i]
    {
      BitOfByte(a, i);
      BitOfByte(b, i);
      assert !(start <= i / 8 < start + 4);
    }
    BurstDetected(state, Bits(a), Bits(b), 8 * start);
  }
}
