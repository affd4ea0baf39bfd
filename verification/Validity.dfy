/** Validity bitmaps: one bit per row, exact size, zero padding and a counted number of nulls. */
module Validities {
  import opened Outcomes

  // ---------- bits of a byte ----------

  /** 1 << k */
  function BitMask(k: nat): Byte
    requires k < 8
  {
    if k == 0 then 1 else BitMask(k - 1) << 1
  }

  /** The low byte of 0xff << k. */
  function PaddingMask(k: nat): Byte
    requires k < 8
  {
    if k == 0 then 0xff else PaddingMask(k - 1) << 1
  }

  predicate BitSet(b: Byte, k: nat)
    requires k < 8
  {
    b & BitMask(k) != 0
  }

  lemma Masks()
    ensures BitMask(0) == 0x01 && BitMask(1) == 0x02 && BitMask(2) == 0x04 && BitMask(3) == 0x08
    ensures BitMask(4) == 0x10 && BitMask(5) == 0x20 && BitMask(6) == 0x40 && BitMask(7) == 0x80
    ensures PaddingMask(1) == 0xfe && PaddingMask(2) == 0xfc && PaddingMask(3) == 0xf8 && PaddingMask(4) == 0xf0
    ensures PaddingMask(5) == 0xe0 && PaddingMask(6) == 0xc0 && PaddingMask(7) == 0x80
  {
    assert BitMask(2) == BitMask(1) << 1;
    assert BitMask(4) == BitMask(3) << 1;
    assert BitMask(6) == BitMask(5) << 1;
    assert PaddingMask(2) == PaddingMask(1) << 1;
    assert PaddingMask(4) == PaddingMask(3) << 1;
    assert PaddingMask(6) == PaddingMask(5) << 1;
  }

  /** The number of set bits among the low `n`. */
  function CountBits(b: Byte, n: nat): (c: nat)
    requires n <= 8
    ensures c <= n
  {
    if n == 0 then 0 else CountBits(b, n - 1) + (if BitSet(b, n - 1) then 1 else 0)
  }

  function Popcount(b: Byte): nat {
    CountBits(b, 8)
  }

  lemma PaddingStep(b: Byte, k: nat)
    requires 0 < k < 8
    ensures b & PaddingMask(k) == 0 <==> !BitSet(b, k) && (k < 7 ==> b & PaddingMask(k + 1) == 0)
  {
    Masks();
  }

  /** The padding test looks at exactly the bits from `used` upward. */
  lemma {:induction false} PaddingTest(b: Byte, used: nat)
    requires 0 < used < 8
    ensures b & PaddingMask(used) == 0 <==> forall k | used <= k < 8 :: !BitSet(b, k)
    decreases 8 - used
  {
    PaddingStep(b, used);
    if used < 7 {
      PaddingTest(b, used + 1);
    }
  }

  /** Setting one bit changes that bit only. */
  lemma SetBit(b: Byte, k: nat, j: nat)
    requires k < 8 && j < 8
    ensures BitSet(b | BitMask(k), j) <==> j == k || BitSet(b, j)
  {
    Masks();
  }

  // ---------- rows of a bitmap ----------

  predicate RowBit(bitmap: Bytes, row: nat)
    requires row < 8 * |bitmap|
  {
    BitSet(bitmap[row / 8], row % 8)
  }

  /** How many of the first `n` rows are marked. */
  function CountRows(bitmap: Bytes, n: nat): (c: nat)
    requires n <= 8 * |bitmap|
    ensures c <= n
  {
    if n == 0 then 0 else CountRows(bitmap, n - 1) + (if RowBit(bitmap, n - 1) then 1 else 0)
  }

  function PopcountSum(bitmap: Bytes, n: nat): nat
    requires n <= |bitmap|
  {
    if n == 0 then 0 else PopcountSum(bitmap, n - 1) + Popcount(bitmap[n - 1])
  }

  lemma {:induction false} CountWithinByte(bitmap: Bytes, n: nat, k: nat)
    requires n < |bitmap| && k <= 8
    ensures CountRows(bitmap, 8 * n + k) == CountRows(bitmap, 8 * n) + CountBits(bitmap[n], k)
    decreases k
  {
    if k > 0 {
      CountWithinByte(bitmap, n, k - 1);
      assert (8 * n + k - 1) / 8 == n && (8 * n + k - 1) % 8 == k - 1;
    }
  }

  /** Counting bytes counts rows. */
  lemma {:induction false} PopcountIsRows(bitmap: Bytes, n: nat)
    requires n <= |bitmap|
    ensures PopcountSum(bitmap, n) == CountRows(bitmap, 8 * n)
    decreases n
  {
    if n > 0 {
      PopcountIsRows(bitmap, n - 1);
      CountWithinByte(bitmap, n - 1, 8);
      assert 8 * n == 8 * (n - 1) + 8;
    }
  }

  /** Rows past the end are unmarked. */
  predicate PaddingClear(rowCount: nat, bitmap: Bytes) {
    forall i | rowCount <= i < 8 * |bitmap| :: !RowBit(bitmap, i)
  }

  lemma {:induction false} PaddingAddsNothing(rowCount: nat, bitmap: Bytes, n: nat)
    requires rowCount <= n <= 8 * |bitmap|
    requires PaddingClear(rowCount, bitmap)
    ensures CountRows(bitmap, n) == CountRows(bitmap, rowCount)
    decreases n
  {
    if n > rowCount {
      PaddingAddsNothing(rowCount, bitmap, n - 1);
    }
  }

  /** Testing the last byte tests all the padding there is. */
  lemma LastByteIsPadding(rowCount: nat, bitmap: Bytes)
    requires |bitmap| == (rowCount + 7) / 8
    ensures PaddingClear(rowCount, bitmap) <==>
            (rowCount % 8 != 0 ==> bitmap[|bitmap| - 1] & PaddingMask(rowCount % 8) == 0)
  {
    if rowCount % 8 != 0 {
      var used, n := rowCount % 8, |bitmap| - 1;
      assert rowCount == 8 * n + used;
      PaddingTest(bitmap[n], used);
      if PaddingClear(rowCount, bitmap) {
        forall k | used <= k < 8
          ensures !BitSet(bitmap[n], k)
        {
          assert !RowBit(bitmap, 8 * n + k);
          assert (8 * n + k) / 8 == n && (8 * n + k) % 8 == k;
        }
      }
      if forall k | used <= k < 8 :: !BitSet(bitmap[n], k) {
        forall i | rowCount <= i < 8 * |bitmap|
          ensures !RowBit(bitmap, i)
        {
          assert i / 8 == n && used <= i % 8;
        }
      }
    }
  }

  // ---------- validity ----------

  datatype Validity = Validity(rowCount: U64, nullCount: U64, bitmap: Bytes)

  predicate IsValid(v: Validity, row: nat)
    requires v.rowCount <= 8 * |v.bitmap|
  {
    row < v.rowCount && RowBit(v.bitmap, row)
  }

  /** What a constructed validity satisfies: exact size, clear padding, counted nulls. */
  predicate WellFormed(v: Validity) {
    && |v.bitmap| == (v.rowCount + 7) / 8
    && PaddingClear(v.rowCount, v.bitmap)
    && v.nullCount == v.rowCount - CountRows(v.bitmap, v.rowCount)
  }

  /**
   * The bitmap is accepted exactly when it has the size its rows need and its padding is clear, and
   * the null count is then the number of unmarked rows.
   */
  method FromBitmap(rowCount: U64, bitmap: Bytes) returns (r: Result<Validity>)
    ensures r.Ok? <==>
              rowCount <= TWO_TO_64 - 8 && |bitmap| == (rowCount + 7) / 8 && PaddingClear(rowCount, bitmap)
    ensures r.Ok? ==> r.value.rowCount == rowCount && r.value.bitmap == bitmap && WellFormed(r.value)
    ensures r.Err? ==> r.error == if rowCount > TWO_TO_64 - 8 then ArithmeticOverflow else InvalidBlock
  {
    if rowCount > TWO_TO_64 - 1 - 7 {
      return Err(ArithmeticOverflow);
    }
    var required := (rowCount + 7) / 8;
    if |bitmap| != required {
      return Err(InvalidBlock);
    }
    LastByteIsPadding(rowCount, bitmap);
    if rowCount % 8 != 0 && |bitmap| != 0 {
      var used := rowCount % 8;
      if bitmap[|bitmap| - 1] & PaddingMask(used) != 0 {
        return Err(InvalidBlock);
      }
    }
    var validCount := 0;
    for i := 0 to |bitmap|
      invariant validCount == PopcountSum(bitmap, i)
    {
      validCount := validCount + Popcount(bitmap[i]);
    }
    PopcountIsRows(bitmap, |bitmap|);
    PaddingAddsNothing(rowCount, bitmap, 8 * |bitmap|);
    return Ok(Validity(rowCount, rowCount - validCount, bitmap));
  }

  // ---------- the builder ----------

  function CountFalse(flags: seq<bool>): nat
    decreases |flags|
  {
    if |flags| == 0 then 0 else CountFalse(flags[..|flags| - 1]) + (if flags[|flags| - 1] then 0 else 1)
  }

  /** The bitmap holds the flags appended so far and zeros after them. */
  ghost predicate Represents(bitmap: Bytes, flags: seq<bool>) {
    forall i | 0 <= i < 8 * |bitmap| :: RowBit(bitmap, i) <==> i < |flags| && flags[i]
  }

  lemma {:induction false} CountFlags(bitmap: Bytes, flags: seq<bool>, n: nat)
    requires n <= |flags| && n <= 8 * |bitmap|
    requires Represents(bitmap, flags)
    ensures n - CountRows(bitmap, n) == CountFalse(flags[..n])
    decreases n
  {
    if n > 0 {
      CountFlags(bitmap, flags, n - 1);
      assert flags[..n][..n - 1] == flags[..n - 1];
    }
  }

  lemma AppendFlag(bitmap: Bytes, flags: seq<bool>, valid: bool, grown: Bytes)
    requires Represents(bitmap, flags) && |flags| < 8 * |bitmap|
    requires grown == if valid then bitmap[|flags| / 8 := bitmap[|flags| / 8] | BitMask(|flags| % 8)] else bitmap
    ensures Represents(grown, flags + [valid])
  {
    var n := |flags|;
    forall i | 0 <= i < 8 * |grown|
      ensures RowBit(grown, i) <==> i < n + 1 && (flags + [valid])[i]
    {
      assert RowBit(bitmap, i) <==> i < n && flags[i];
      if valid && i / 8 == n / 8 {
        SetBit(bitmap[n / 8], n % 8, i % 8);
        assert i % 8 == n % 8 <==> i == n;
      }
    }
  }

  class ValidityBuilder {
    const rowCount: U64
    var appended: nat
    const bytes: array<Byte>
    const validSize: bool
    var finished: bool
    ghost var flags: seq<bool>

    ghost predicate Valid()
      reads this, bytes
    {
      && appended == |flags| <= rowCount
      && (validSize <==> rowCount <= TWO_TO_64 - 8)
      && (validSize ==> bytes.Length == (rowCount + 7) / 8 && Represents(bytes[..], flags))
      && (!validSize ==> flags == [])
    }

    constructor (rowCount: U64)
      ensures Valid() && flags == [] && !finished && fresh(bytes)
      ensures this.rowCount == rowCount
    {
      this.rowCount := rowCount;
      appended, finished, flags := 0, false, [];
      if rowCount <= TWO_TO_64 - 1 - 7 {
        var storage := new Byte[(rowCount + 7) / 8](_ => 0);
        bytes := storage;
        validSize := true;
        AllClear(storage[..]);
      } else {
        bytes := new Byte[0];
        validSize := false;
      }
    }

    /** Appends one row while there is room. */
    method Append(valid: bool) returns (r: Status)
      requires Valid()
      modifies this, bytes
      ensures Valid() && finished == old(finished)
      ensures r == if old(finished) || |old(flags)| == rowCount then Err(InvalidState)
                   else if rowCount > TWO_TO_64 - 8 then Err(ArithmeticOverflow)
                   else Ok(Unit)
      ensures flags == if r.Ok? then old(flags) + [valid] else old(flags)
    {
      if finished || appended >= rowCount {
        return Err(InvalidState);
      }
      if !validSize {
        return Err(ArithmeticOverflow);
      }
      ghost var before := bytes[..];
      if valid {
        var index, bit := appended / 8, appended % 8;
        bytes[index] := bytes[index] | BitMask(bit);
      }
      AppendFlag(before, flags, valid, bytes[..]);
      appended := appended + 1;
      flags := flags + [valid];
      return Ok(Unit);
    }

    /** Finishing succeeds once, exactly when every row was appended, and answers the appended flags. */
    method Finish() returns (r: Result<Validity>)
      requires Valid()
      modifies this
      ensures finished == (old(finished) || |flags| == rowCount) && flags == old(flags)
      ensures r.Ok? <==> !old(finished) && |flags| == rowCount
      ensures r.Err? ==> r.error == InvalidState
      ensures r.Ok? ==>
                && WellFormed(r.value) && r.value.rowCount == |flags|
                && (forall i | 0 <= i < |flags| :: IsValid(r.value, i) <==> flags[i])
                && r.value.nullCount == CountFalse(flags)
    {
      if finished || appended != rowCount {
        return Err(InvalidState);
      }
      finished := true;
      r := FromBitmap(rowCount, bytes[..]);
      CountFlags(bytes[..], flags, |flags|);
      assert flags[..|flags|] == flags;
    }
  }

  lemma AllClear(bitmap: Bytes)
    requires forall i | 0 <= i < |bitmap| :: bitmap[i] == 0
    ensures Represents(bitmap, [])
  {
    forall i | 0 <= i < 8 * |bitmap|
      ensures !RowBit(bitmap, i)
    {
      NothingSet(i % 8);
    }
  }

  lemma NothingSet(k: nat)
    requires k < 8
    ensures !BitSet(0, k)
  {
    assert 0 & BitMask(k) == 0;
  }
}
