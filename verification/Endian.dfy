/** Little-endian integers of any width; shifts and masks of unsigned values are quotients and remainders. */
module Endian {
  import opened Outcomes

  /** 256^width, the number of values that fit. */
  function Capacity(width: nat): (c: nat)
    ensures c > 0
  {
    if width == 0 then 1 else 0x100 * Capacity(width - 1)
  }

  function EncodeLe(value: nat, width: nat): (b: Bytes)
    ensures |b| == width
    decreases width, value
  {
    if width == 0 then [] else [(value % 0x100) as bv8] + EncodeLe(value / 0x100, width - 1)
  }

  function DecodeLe(b: Bytes): nat
    decreases |b|
  {
    if |b| == 0 then 0 else (b[0] as int) + 0x100 * DecodeLe(b[1..])
  }

  lemma Capacities()
    ensures Capacity(1) == 0x100
    ensures Capacity(2) == TWO_TO_16
    ensures Capacity(4) == TWO_TO_32
    ensures Capacity(8) == TWO_TO_64
  {
    assert Capacity(2) == 0x100 * Capacity(1);
    assert Capacity(4) == 0x1_0000 * Capacity(2);
    assert Capacity(8) == 0x1_0000_0000 * Capacity(4);
  }

  lemma ByteRange(b: Byte)
    ensures 0 <= b as int < 0x100 && (b as int) as bv8 == b
  {
  }

  lemma NextByte(b: Byte)
    requires b as int < 0xff
    ensures (b + 1) as int == b as int + 1
  {
  }

  lemma {:induction false} ByteFor(n: int) returns (b: Byte)
    requires 0 <= n < 0x100
    ensures b as int == n
    decreases n
  {
    b := 0;
    if n > 0 {
      var previous := ByteFor(n - 1);
      NextByte(previous);
      b := previous + 1;
    }
  }

  lemma ByteOfInt(n: int)
    requires 0 <= n < 0x100
    ensures (n as bv8) as int == n
  {
    var b := ByteFor(n);
    ByteRange(b);
  }

  lemma {:induction false} DecodeBound(b: Bytes)
    ensures DecodeLe(b) < Capacity(|b|)
    decreases |b|
  {
    if |b| > 0 {
      ByteRange(b[0]);
      DecodeBound(b[1..]);
    }
  }

  lemma {:induction false} DecodeEncode(value: nat, width: nat)
    requires value < Capacity(width)
    ensures DecodeLe(EncodeLe(value, width)) == value
    decreases width
  {
    if width > 0 {
      ByteOfInt(value % 0x100);
      DecodeEncode(value / 0x100, width - 1);
      assert EncodeLe(value, width)[1..] == EncodeLe(value / 0x100, width - 1);
    }
  }

  lemma PrependDigit(value: nat, digit: Byte, rest: nat)
    requires value == (digit as int) + 0x100 * rest
    ensures (value % 0x100) as bv8 == digit && value / 0x100 == rest
  {
    ByteRange(digit);
    assert value % 0x100 == digit as int;
  }

  lemma {:induction false} EncodeDecode(b: Bytes)
    ensures EncodeLe(DecodeLe(b), |b|) == b
    decreases |b|
  {
    if |b| > 0 {
      EncodeDecode(b[1..]);
      PrependDigit(DecodeLe(b), b[0], DecodeLe(b[1..]));
    }
  }

  /** A decoder reads the leading bytes it needs, leaves the rest alone, and refuses a truncated field. */
  function DecodeField(bytes: Bytes, width: nat): (r: Result<nat>)
    ensures r.Ok? <==> |bytes| >= width
    ensures r.Err? ==> r.error == UnexpectedEnd
    ensures r.Ok? ==> r.value < Capacity(width) && bytes[..width] == EncodeLe(r.value, width)
  {
    if |bytes| < width then Err(UnexpectedEnd)
    else
      DecodeBound(bytes[..width]);
      EncodeDecode(bytes[..width]);
      Ok(DecodeLe(bytes[..width]))
  }

  lemma DecodeFieldInverse(value: nat, width: nat, rest: Bytes)
    requires value < Capacity(width)
    ensures DecodeField(EncodeLe(value, width) + rest, width) == Ok(value)
  {
    DecodeEncode(value, width);
    assert (EncodeLe(value, width) + rest)[..width] == EncodeLe(value, width);
  }

  function DecodeU16(bytes: Bytes): (r: Result<U16>)
    ensures r.Ok? <==> |bytes| >= 2
    ensures r.Err? ==> r.error == UnexpectedEnd
    ensures r.Ok? ==> bytes[..2] == EncodeLe(r.value, 2)
  {
    Capacities();
    DecodeField(bytes, 2)
  }

  function DecodeU32(bytes: Bytes): (r: Result<U32>)
    ensures r.Ok? <==> |bytes| >= 4
    ensures r.Err? ==> r.error == UnexpectedEnd
    ensures r.Ok? ==> bytes[..4] == EncodeLe(r.value, 4)
  {
    Capacities();
    DecodeField(bytes, 4)
  }

  function DecodeU64(bytes: Bytes): (r: Result<U64>)
    ensures r.Ok? <==> |bytes| >= 8
    ensures r.Err? ==> r.error == UnexpectedEnd
    ensures r.Ok? ==> bytes[..8] == EncodeLe(r.value, 8)
  {
    Capacities();
    DecodeField(bytes, 8)
  }

  /** Distinct values of one width have distinct encodings. */
  lemma EncodeInjective(a: nat, b: nat, width: nat)
    requires a < Capacity(width) && b < Capacity(width)
    requires EncodeLe(a, width) == EncodeLe(b, width)
    ensures a == b
  {
    DecodeEncode(a, width);
    DecodeEncode(b, width);
  }

  lemma DecodeU16Exact(bytes: Bytes, value: U16)
    requires |bytes| == 2
    ensures DecodeU16(bytes) == Ok(value) <==> bytes == EncodeLe(value, 2)
  {
    Capacities();
    assert bytes[..2] == bytes;
    DecodeEncode(value, 2);
  }

  lemma DecodeU64Exact(bytes: Bytes, value: U64)
    requires |bytes| == 8
    ensures DecodeU64(bytes) == Ok(value) <==> bytes == EncodeLe(value, 8)
  {
    Capacities();
    assert bytes[..8] == bytes;
    DecodeEncode(value, 8);
  }
}
