/** Strict UTF-8, sections 3 and 4 of RFC 3629: the hand-written scan and what it accepts. */
module Utf8 {
  import opened Outcomes

  predicate IsScalar(c: bv32) {
    c <= 0x10ffff && !(0xd800 <= c <= 0xdfff)
  }

  type Scalar = c: bv32 | IsScalar(c)

  function Octet(c: bv32): Byte {
    (c & 0xff) as bv8
  }

  function Lead2(c: bv32): Byte {
    Octet(0xc0 | (c >> 6))
  }

  function Lead3(c: bv32): Byte {
    Octet(0xe0 | (c >> 12))
  }

  function Lead4(c: bv32): Byte {
    Octet(0xf0 | (c >> 18))
  }

  /** The continuation byte that carries the low six bits. */
  function Tail(c: bv32): Byte {
    Octet(0x80 | (c & 0x3f))
  }

  /** The encoding table of section 3. */
  function EncodeScalar(c: Scalar): (b: Bytes)
    ensures 1 <= |b| <= 4
  {
    if c <= 0x7f then [Octet(c)]
    else if c <= 0x7ff then [Lead2(c), Tail(c)]
    else if c <= 0xffff then [Lead3(c), Tail(c >> 6), Tail(c)]
    else [Lead4(c), Tail(c >> 12), Tail(c >> 6), Tail(c)]
  }

  function Encode(text: seq<Scalar>): Bytes
    decreases |text|
  {
    if |text| == 0 then [] else EncodeScalar(text[0]) + Encode(text[1..])
  }

  ghost predicate IsUtf8(bytes: Bytes) {
    exists text: seq<Scalar> :: Encode(text) == bytes
  }

  // ---------- the scan, one character at a time ----------

  /** How many bytes the first one announces; zero when it cannot start a character. */
  function SequenceLength(first: Byte): nat {
    if first <= 0x7f then 1
    else if first & 0xe0 == 0xc0 then 2
    else if first & 0xf0 == 0xe0 then 3
    else if first & 0xf8 == 0xf0 then 4
    else 0
  }

  function LeadBits(first: Byte): bv32 {
    if first <= 0x7f then first as bv32
    else if first & 0xe0 == 0xc0 then (first & 0x1f) as bv32
    else if first & 0xf0 == 0xe0 then (first & 0x0f) as bv32
    else (first & 0x07) as bv32
  }

  predicate IsContinuation(b: Byte) {
    b & 0xc0 == 0x80
  }

  function Shifted(codepoint: bv32, b: Byte): bv32 {
    (codepoint << 6) | ((b & 0x3f) as bv32)
  }

  function Accumulate(codepoint: bv32, tail: Bytes): bv32
    decreases |tail|
  {
    if |tail| == 0 then codepoint
    else Shifted(Accumulate(codepoint, tail[..|tail| - 1]), tail[|tail| - 1])
  }

  predicate Rejected(count: nat, codepoint: bv32) {
    || (count == 2 && codepoint < 0x80)
    || (count == 3 && codepoint < 0x800)
    || (count == 4 && codepoint < 0x10000)
    || codepoint > 0x10ffff
    || (codepoint >= 0xd800 && codepoint <= 0xdfff)
  }

  datatype Decoded = Malformed | Character(codepoint: bv32, length: nat)

  function DecodeFirst(b: Bytes): Decoded
    requires |b| > 0
  {
    var count := SequenceLength(b[0]);
    if count == 0 || count > |b| then Malformed
    else if exists i | 1 <= i < count :: !IsContinuation(b[i]) then Malformed
    else
      var codepoint := Accumulate(LeadBits(b[0]), b[1..count]);
      if Rejected(count, codepoint) then Malformed else Character(codepoint, count)
  }

  // ---------- the scan inverts the encoding ----------

  lemma LeadBytes(c: bv32)
    ensures c <= 0x7f ==> SequenceLength(Octet(c)) == 1 && LeadBits(Octet(c)) == c
    ensures 0x80 <= c <= 0x7ff ==> SequenceLength(Lead2(c)) == 2
    ensures 0x800 <= c <= 0xffff ==> SequenceLength(Lead3(c)) == 3
    ensures 0x10000 <= c <= 0x10ffff ==> SequenceLength(Lead4(c)) == 4
  {
  }

  lemma TailContinues(c: bv32)
    ensures IsContinuation(Tail(c))
  {
  }

  lemma EncodedShape(c: Scalar)
    ensures var e := EncodeScalar(c);
            && SequenceLength(e[0]) == |e|
            && (forall i | 1 <= i < |e| :: IsContinuation(e[i]))
            && !Rejected(|e|, c)
  {
    assert IsScalar(c);
    LeadBytes(c);
    TailContinues(c >> 12);
    TailContinues(c >> 6);
    TailContinues(c);
  }

  lemma TwoBytes(c: bv32)
    requires 0x80 <= c <= 0x7ff
    ensures Shifted(LeadBits(Lead2(c)), Tail(c)) == c
  {
  }

  lemma ThreeBytes(c: bv32)
    requires 0x800 <= c <= 0xffff
    ensures Shifted(Shifted(LeadBits(Lead3(c)), Tail(c >> 6)), Tail(c)) == c
  {
  }

  lemma FourBytes(c: bv32)
    requires 0x10000 <= c <= 0x10ffff
    ensures Shifted(Shifted(Shifted(LeadBits(Lead4(c)), Tail(c >> 12)), Tail(c >> 6)), Tail(c)) == c
  {
  }

  lemma AccumulateFew(x: bv32, tail: Bytes)
    ensures |tail| == 0 ==> Accumulate(x, tail) == x
    ensures |tail| == 1 ==> Accumulate(x, tail) == Shifted(x, tail[0])
    ensures |tail| == 2 ==> Accumulate(x, tail) == Shifted(Shifted(x, tail[0]), tail[1])
    ensures |tail| == 3 ==> Accumulate(x, tail) == Shifted(Shifted(Shifted(x, tail[0]), tail[1]), tail[2])
  {
    if |tail| == 3 {
      assert tail[..2][..1] == tail[..1];
    }
  }

  lemma EncodedValue(c: Scalar)
    ensures var e := EncodeScalar(c); Accumulate(LeadBits(e[0]), e[1..]) == c
  {
    assert IsScalar(c);
    var e := EncodeScalar(c);
    LeadBytes(c);
    AccumulateFew(LeadBits(e[0]), e[1..]);
    if 0x80 <= c <= 0x7ff {
      TwoBytes(c);
    } else if 0x800 <= c <= 0xffff {
      ThreeBytes(c);
    } else if 0x10000 <= c {
      FourBytes(c);
    }
  }

  /** Completeness: an encoded character is read back, whatever follows it. */
  lemma DecodeEncoded(c: Scalar, rest: Bytes)
    ensures DecodeFirst(EncodeScalar(c) + rest) == Character(c, |EncodeScalar(c)|)
  {
    var e := EncodeScalar(c);
    var b := e + rest;
    EncodedShape(c);
    EncodedValue(c);
    assert b[0] == e[0] && b[1..|e|] == e[1..];
    forall i | 1 <= i < |e|
      ensures IsContinuation(b[i])
    {
      assert b[i] == e[i];
    }
  }

  lemma ReadOne(b: Byte)
    requires SequenceLength(b) == 1
    ensures IsScalar(LeadBits(b)) && EncodeScalar(LeadBits(b)) == [b]
  {
  }

  lemma TwoBytesBack(b0: Byte, b1: Byte)
    requires SequenceLength(b0) == 2 && IsContinuation(b1)
    ensures var c := Shifted(LeadBits(b0), b1); c <= 0x7ff && Lead2(c) == b0 && Tail(c) == b1
  {
  }

  lemma ThreeBytesBack(b0: Byte, b1: Byte, b2: Byte)
    requires SequenceLength(b0) == 3 && IsContinuation(b1) && IsContinuation(b2)
    ensures var c := Shifted(Shifted(LeadBits(b0), b1), b2);
            c <= 0xffff && Lead3(c) == b0 && Tail(c >> 6) == b1 && Tail(c) == b2
  {
  }

  lemma FourBytesBack(b0: Byte, b1: Byte, b2: Byte, b3: Byte)
    requires SequenceLength(b0) == 4 && IsContinuation(b1) && IsContinuation(b2) && IsContinuation(b3)
    ensures var c := Shifted(Shifted(Shifted(LeadBits(b0), b1), b2), b3);
            Lead4(c) == b0 && Tail(c >> 12) == b1 && Tail(c >> 6) == b2 && Tail(c) == b3
  {
  }

  lemma LongestSequence(b: Byte)
    ensures SequenceLength(b) <= 4
  {
  }

  /** What the scan has established about the first character when it accepts it. */
  predicate Scanned(b: Bytes, n: nat, c: bv32) {
    && 1 <= n <= |b| && SequenceLength(b[0]) == n
    && (forall i | 1 <= i < n :: IsContinuation(b[i]))
    && c == Accumulate(LeadBits(b[0]), b[1..n])
    && !Rejected(n, c)
  }

  lemma ScannedOne(b: Bytes, c: bv32)
    requires Scanned(b, 1, c)
    ensures IsScalar(c) && b[..1] == EncodeScalar(c)
  {
    AccumulateFew(LeadBits(b[0]), b[1..1]);
    ReadOne(b[0]);
  }

  lemma ScannedTwo(b: Bytes, c: bv32)
    requires Scanned(b, 2, c)
    ensures IsScalar(c) && b[..2] == EncodeScalar(c)
  {
    AccumulateFew(LeadBits(b[0]), b[1..2]);
    TwoBytesBack(b[0], b[1]);
  }

  lemma ScannedThree(b: Bytes, c: bv32)
    requires Scanned(b, 3, c)
    ensures IsScalar(c) && b[..3] == EncodeScalar(c)
  {
    AccumulateFew(LeadBits(b[0]), b[1..3]);
    ThreeBytesBack(b[0], b[1], b[2]);
  }

  lemma FourByteForm(c: bv32)
    requires !Rejected(4, c)
    ensures IsScalar(c) && EncodeScalar(c) == [Lead4(c), Tail(c >> 12), Tail(c >> 6), Tail(c)]
  {
  }

  lemma ScannedFour(b: Bytes, c: bv32)
    requires Scanned(b, 4, c)
    ensures IsScalar(c) && b[..4] == EncodeScalar(c)
  {
    AccumulateFew(LeadBits(b[0]), b[1..4]);
    FourBytesBack(b[0], b[1], b[2], b[3]);
    FourByteForm(c);
    assert b[..4] == [b[0], b[1], b[2], b[3]];
  }

  /** Soundness: a character that is read is the encoding of a scalar value, in its only form. */
  lemma EncodeDecoded(b: Bytes)
    requires |b| > 0 && DecodeFirst(b).Character?
    ensures var d := DecodeFirst(b);
            && IsScalar(d.codepoint) && 0 < d.length <= |b| && b[..d.length] == EncodeScalar(d.codepoint)
  {
    var n, c := DecodeFirst(b).length, DecodeFirst(b).codepoint;
    LongestSequence(b[0]);
    assert Scanned(b, n, c);
    if n == 1 {
      ScannedOne(b, c);
    } else if n == 2 {
      ScannedTwo(b, c);
    } else if n == 3 {
      ScannedThree(b, c);
    } else {
      ScannedFour(b, c);
    }
  }

  // ---------- whole strings ----------

  lemma EncodingStarts(b: Bytes, text: seq<Scalar>)
    requires |b| > 0 && Encode(text) == b
    ensures |text| > 0
    ensures DecodeFirst(b) == Character(text[0], |EncodeScalar(text[0])|)
    ensures b[|EncodeScalar(text[0])|..] == Encode(text[1..])
  {
    assert |text| > 0;
    DecodeEncoded(text[0], Encode(text[1..]));
  }

  lemma PrependCharacter(b: Bytes, c: Scalar, n: nat)
    requires n <= |b| && b[..n] == EncodeScalar(c)
    requires IsUtf8(b[n..])
    ensures IsUtf8(b)
  {
    var rest: seq<Scalar> :| Encode(rest) == b[n..];
    var text := [c] + rest;
    assert text[1..] == rest;
    assert Encode(text) == b[..n] + b[n..] == b;
  }

  /** A string is UTF-8 exactly when its first character decodes and the rest is UTF-8. */
  lemma PeelCharacter(b: Bytes)
    requires |b| > 0
    ensures DecodeFirst(b).Malformed? ==> !IsUtf8(b)
    ensures DecodeFirst(b).Character? ==>
              DecodeFirst(b).length <= |b| && (IsUtf8(b) <==> IsUtf8(b[DecodeFirst(b).length..]))
  {
    var d := DecodeFirst(b);
    if d.Character? {
      EncodeDecoded(b);
      if IsUtf8(b[d.length..]) {
        PrependCharacter(b, d.codepoint, d.length);
      }
    }
    if IsUtf8(b) {
      var text: seq<Scalar> :| Encode(text) == b;
      EncodingStarts(b, text);
    }
  }

  lemma SliceFront(s: Bytes, n: nat)
    requires 1 <= n < |s|
    ensures s[1..n + 1][..n - 1] == s[1..n] && s[1..n + 1][n - 1] == s[n]
  {
  }

  lemma AccumulateNext(lead: bv32, s: Bytes, n: nat)
    requires 1 <= n < |s|
    ensures Accumulate(lead, s[1..n + 1]) == Shifted(Accumulate(lead, s[1..n]), s[n])
  {
    SliceFront(s, n);
  }

  /** Reads one character at `index`, byte by byte. */
  method ScanCharacter(bytes: Bytes, index: nat) returns (d: Decoded)
    requires index < |bytes|
    ensures d == DecodeFirst(bytes[index..])
  {
    ghost var rest := bytes[index..];
    var first := bytes[index];
    var count := SequenceLength(first);
    if count == 0 || index + count > |bytes| {
      return Malformed;
    }
    var codepoint := LeadBits(first);
    var offset := 1;
    while offset < count
      invariant 1 <= offset <= count
      invariant forall i | 1 <= i < offset :: IsContinuation(rest[i])
      invariant codepoint == Accumulate(LeadBits(first), rest[1..offset])
    {
      var byte := bytes[index + offset];
      if !IsContinuation(byte) {
        assert !IsContinuation(rest[offset]);
        return Malformed;
      }
      AccumulateNext(LeadBits(first), rest, offset);
      codepoint := Shifted(codepoint, byte);
      offset := offset + 1;
    }
    return if Rejected(count, codepoint) then Malformed else Character(codepoint, count);
  }

  /** The scan accepts exactly the encodings of strings of scalar values, and never reads past the end. */
  method ValidUtf8(bytes: Bytes) returns (valid: bool)
    ensures valid <==> IsUtf8(bytes)
  {
    var index := 0;
    assert bytes[0..] == bytes;
    while index < |bytes|
      invariant 0 <= index <= |bytes|
      invariant IsUtf8(bytes) <==> IsUtf8(bytes[index..])
    {
      var d := ScanCharacter(bytes, index);
      PeelCharacter(bytes[index..]);
      if d.Malformed? {
        return false;
      }
      EncodeDecoded(bytes[index..]);
      assert bytes[index..][d.length..] == bytes[index + d.length..];
      index := index + d.length;
    }
    assert Encode([]) == [] == bytes[index..];
    return true;
  }

  /** The string of scalar values is unique. */
  lemma {:induction false} EncodeInjective(s: seq<Scalar>, t: seq<Scalar>)
    requires Encode(s) == Encode(t)
    ensures s == t
    decreases |s|
  {
    if |s| > 0 && |t| > 0 {
      DecodeEncoded(s[0], Encode(s[1..]));
      DecodeEncoded(t[0], Encode(t[1..]));
      assert Encode(s[1..]) == Encode(s)[|EncodeScalar(s[0])|..];
      assert Encode(t[1..]) == Encode(t)[|EncodeScalar(t[0])|..];
      EncodeInjective(s[1..], t[1..]);
      assert s == [s[0]] + s[1..] && t == [t[0]] + t[1..];
    }
  }
}
