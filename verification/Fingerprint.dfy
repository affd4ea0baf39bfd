/** The 128-bit schema fingerprint: two multiplicative hashes modulo 2^64. */
module Fingerprints {
  import opened Outcomes
  import opened Crc32cWide

  // ---------- hashing one byte after another ----------

  function Fold<S>(step: (S, Byte) -> S, seed: S, bytes: Bytes): S
    decreases |bytes|
  {
    if |bytes| == 0 then seed else step(Fold(step, seed, bytes[..|bytes| - 1]), bytes[|bytes| - 1])
  }

  ghost predicate Reversible<S(!new)>(step: (S, Byte) -> S) {
    forall s, t, b :: step(s, b) == step(t, b) ==> s == t
  }

  ghost predicate Separating<S(!new)>(step: (S, Byte) -> S) {
    forall s, b, c :: step(s, b) == step(s, c) ==> b == c
  }

  /** A difference in the hash state survives any common continuation. */
  lemma {:induction false} DifferencePersists<S(!new)>(step: (S, Byte) -> S, seed: S, a: Bytes, b: Bytes, tail: Bytes)
    requires Reversible(step)
    requires Fold(step, seed, a) != Fold(step, seed, b)
    ensures Fold(step, seed, a + tail) != Fold(step, seed, b + tail)
    decreases |tail|
  {
    if |tail| == 0 {
      assert a + tail == a && b + tail == b;
    } else {
      var n := |tail| - 1;
      DifferencePersists(step, seed, a, b, tail[..n]);
      var x, y := Fold(step, seed, a + tail[..n]), Fold(step, seed, b + tail[..n]);
      assert (a + tail)[..|a + tail| - 1] == a + tail[..n];
      assert (b + tail)[..|b + tail| - 1] == b + tail[..n];
      assert (a + tail)[|a + tail| - 1] == tail[n] && (b + tail)[|b + tail| - 1] == tail[n];
      assert Fold(step, seed, a + tail) == step(x, tail[n]);
      assert Fold(step, seed, b + tail) == step(y, tail[n]);
      assert step(x, tail[n]) != step(y, tail[n]);
    }
  }

  lemma OneByteChangesFold<S(!new)>(step: (S, Byte) -> S, seed: S, bytes: Bytes, i: nat, b: Byte)
    requires Reversible(step) && Separating(step)
    requires i < |bytes| && bytes[i] != b
    ensures Fold(step, seed, bytes) != Fold(step, seed, bytes[i := b])
  {
    var head, tail := bytes[..i], bytes[i + 1..];
    var x, y := head + [bytes[i]], head + [b];
    assert x[..i] == head && y[..i] == head;
    DifferencePersists(step, seed, x, y, tail);
    assert x + tail == bytes && y + tail == bytes[i := b];
  }

  // ---------- the two hashes ----------

  const FIRST_SEED: bv64 := 14695981039346656037
  const SECOND_SEED: bv64 := 1099511628211

  function FirstMultiply(x: bv64): bv64 {
    x * 1099511628211
  }

  function SecondMultiply(x: bv64): bv64 {
    x * 14029467366897019727
  }

  function Mix(state: bv64, b: Byte): bv64 {
    state ^ (b as bv64)
  }

  function FirstStep(state: bv64, b: Byte): bv64 {
    FirstMultiply(Mix(state, b))
  }

  function SecondStep(state: bv64, b: Byte): bv64 {
    SecondMultiply(Mix(state, b + 0x9d))
  }

  function FirstHash(bytes: Bytes): bv64 {
    Fold(FirstStep, FIRST_SEED, bytes)
  }

  function SecondHash(bytes: Bytes): bv64 {
    Fold(SecondStep, SECOND_SEED, bytes)
  }

  function Fingerprint(bytes: Bytes): (b: Bytes)
    ensures |b| == 16
  {
    DoubleWordBytes(FirstHash(bytes), 8) + DoubleWordBytes(SecondHash(bytes), 8)
  }

  lemma FoldAppend<S>(step: (S, Byte) -> S, seed: S, bytes: Bytes, b: Byte)
    ensures Fold(step, seed, []) == seed
    ensures Fold(step, seed, bytes + [b]) == step(Fold(step, seed, bytes), b)
  {
    assert (bytes + [b])[..|bytes|] == bytes;
  }

  /** The recurrences of the two hashes. */
  lemma Recurrences(bytes: Bytes, b: Byte)
    ensures FirstHash([]) == 0xcbf2_9ce4_8422_2325 && SecondHash([]) == 0x0000_0100_0000_01b3
    ensures FirstHash(bytes + [b]) == FirstMultiply(Mix(FirstHash(bytes), b))
    ensures SecondHash(bytes + [b]) == SecondMultiply(Mix(SecondHash(bytes), b + 0x9d))
  {
    FoldAppend(FirstStep, FIRST_SEED, bytes, b);
    FoldAppend(SecondStep, SECOND_SEED, bytes, b);
  }

  /** Their operations, in numbers. */
  lemma HashOperations(x: bv64, b: Byte)
    ensures FirstMultiply(x) == x * 0x0000_0100_0000_01b3
    ensures SecondMultiply(x) == x * 0xc2b2_ae3d_27d4_eb4f
    ensures Mix(x, b) == x ^ (b as bv64)
  {
  }

  method HashBoth(canonical: Bytes) returns (first: bv64, second: bv64)
    ensures first == FirstHash(canonical) && second == SecondHash(canonical)
  {
    first, second := FIRST_SEED, SECOND_SEED;
    for i := 0 to |canonical|
      invariant first == Fold(FirstStep, FIRST_SEED, canonical[..i])
      invariant second == Fold(SecondStep, SECOND_SEED, canonical[..i])
    {
      assert canonical[..i + 1][..i] == canonical[..i];
      first := FirstStep(first, canonical[i]);
      second := SecondStep(second, canonical[i]);
    }
    assert canonical[..|canonical|] == canonical;
  }

  /** A hash, lowest byte first. */
  method WriteHash(result: array<Byte>, offset: nat, hash: bv64)
    requires offset + 8 <= result.Length
    modifies result
    ensures result[offset..offset + 8] == DoubleWordBytes(hash, 8)
    ensures result[..offset] == old(result[..offset])
    ensures result[offset + 8..] == old(result[offset + 8..])
  {
    ghost var whole := DoubleWordBytes(hash, 8);
    ghost var rest := whole;
    var word := hash;
    for index := 0 to 8
      invariant result[..offset] == old(result[..offset])
      invariant result[offset + 8..] == old(result[offset + 8..])
      invariant |rest| == 8 - index && result[offset..offset + index] + rest == whole
      invariant rest == DoubleWordBytes(word, 8 - index)
    {
      NextByte(word, 8 - index);
      result[offset + index] := LowByte(word);
      word := DropByte(word);
      rest := rest[1..];
    }
  }

  lemma NextByte(v: bv64, count: nat)
    requires count > 0
    ensures DoubleWordBytes(v, count)[0] == LowByte(v)
    ensures DoubleWordBytes(v, count)[1..] == DoubleWordBytes(DropByte(v), count - 1)
  {
  }

  method MakeFingerprint(canonical: Bytes) returns (result: array<Byte>)
    ensures fresh(result)
    ensures result[..] == Fingerprint(canonical)
  {
    var first, second := HashBoth(canonical);
    result := new Byte[16](_ => 0);
    WriteHash(result, 0, first);
    ghost var lower := result[0..8];
    assert result[..8] == lower;
    WriteHash(result, 8, second);
    assert result[..] == result[..8] + result[8..16];
  }

  // ---------- one changed byte always shows ----------

  function FirstUndo(product: bv64): bv64 {
    product * 14886173955864302971
  }

  function SecondUndo(product: bv64): bv64 {
    product * 839798700976720815
  }

  /** The factors are odd, so multiplication modulo 2^64 can be undone. */
  lemma FirstUndone(x: bv64)
    ensures FirstUndo(x * 1099511628211) == x
  {
  }

  lemma SecondUndone(x: bv64)
    ensures SecondUndo(x * 14029467366897019727) == x
  {
  }

  lemma FirstMultiplyInjective(x: bv64, y: bv64)
    requires FirstMultiply(x) == FirstMultiply(y)
    ensures x == y
  {
    FirstUndone(x);
    FirstUndone(y);
  }

  lemma SecondMultiplyInjective(x: bv64, y: bv64)
    requires SecondMultiply(x) == SecondMultiply(y)
    ensures x == y
  {
    SecondUndone(x);
    SecondUndone(y);
  }

  lemma MixInjective(s: bv64, t: bv64, b: Byte, c: Byte)
    ensures Mix(s, b) == Mix(t, b) ==> s == t
    ensures Mix(s, b) == Mix(s, c) ==> b == c
    ensures b + 0x9d == c + 0x9d ==> b == c
  {
  }

  lemma FirstStepInjective(s: bv64, t: bv64, b: Byte, c: Byte)
    requires FirstStep(s, b) == FirstStep(t, c)
    ensures Mix(s, b) == Mix(t, c)
  {
    FirstMultiplyInjective(Mix(s, b), Mix(t, c));
  }

  lemma SecondStepInjective(s: bv64, t: bv64, b: Byte, c: Byte)
    requires SecondStep(s, b) == SecondStep(t, c)
    ensures Mix(s, b + 0x9d) == Mix(t, c + 0x9d)
  {
    SecondMultiplyInjective(Mix(s, b + 0x9d), Mix(t, c + 0x9d));
  }

  lemma FirstStepGood()
    ensures Reversible(FirstStep) && Separating(FirstStep)
  {
    forall s, t, b | FirstStep(s, b) == FirstStep(t, b)
      ensures s == t
    {
      FirstStepInjective(s, t, b, b);
      MixInjective(s, t, b, b);
    }
    forall s, b, c | FirstStep(s, b) == FirstStep(s, c)
      ensures b == c
    {
      FirstStepInjective(s, s, b, c);
      MixInjective(s, s, b, c);
    }
  }

  lemma SecondStepGood()
    ensures Reversible(SecondStep) && Separating(SecondStep)
  {
    forall s, t, b | SecondStep(s, b) == SecondStep(t, b)
      ensures s == t
    {
      SecondStepInjective(s, t, b, b);
      MixInjective(s, t, b + 0x9d, b + 0x9d);
    }
    forall s, b, c | SecondStep(s, b) == SecondStep(s, c)
      ensures b == c
    {
      SecondStepInjective(s, s, b, c);
      MixInjective(s, s, b + 0x9d, c + 0x9d);
      MixInjective(s, s, b, c);
    }
  }

  lemma OneByteChangesHashes(bytes: Bytes, i: nat, b: Byte)
    requires i < |bytes| && bytes[i] != b
    ensures FirstHash(bytes) != FirstHash(bytes[i := b])
    ensures SecondHash(bytes) != SecondHash(bytes[i := b])
  {
    FirstStepGood();
    SecondStepGood();
    OneByteChangesFold(FirstStep, FIRST_SEED, bytes, i, b);
    OneByteChangesFold(SecondStep, SECOND_SEED, bytes, i, b);
  }

  // ---------- serialized halves ----------

  lemma ByteAndRestDetermine(v: bv64, w: bv64)
    requires LowByte(v) == LowByte(w) && DropByte(v) == DropByte(w)
    ensures v == w
  {
  }

  function DropBytes(v: bv64, count: nat): bv64
    decreases count, v
  {
    if count == 0 then v else DropBytes(DropByte(v), count - 1)
  }

  lemma {:induction false} BytesDetermine(v: bv64, w: bv64, count: nat)
    requires DoubleWordBytes(v, count) == DoubleWordBytes(w, count)
    requires DropBytes(v, count) == DropBytes(w, count)
    ensures v == w
    decreases count
  {
    if count > 0 {
      NextByte(v, count);
      NextByte(w, count);
      BytesDetermine(DropByte(v), DropByte(w), count - 1);
      ByteAndRestDetermine(v, w);
    }
  }

  lemma EightBytesDropped(v: bv64)
    ensures DropBytes(v, 8) == 0
  {
    var v2 := DropByte(DropByte(v));
    var v4 := DropByte(DropByte(v2));
    var v6 := DropByte(DropByte(v4));
    assert DropBytes(v, 8) == DropBytes(v2, 6);
    assert DropBytes(v2, 6) == DropBytes(v4, 4);
    assert DropBytes(v4, 4) == DropBytes(v6, 2);
    assert DropBytes(v6, 2) == DropBytes(DropByte(DropByte(v6)), 0);
    AllShiftedOut(v);
  }

  lemma AllShiftedOut(v: bv64)
    ensures DropByte(DropByte(DropByte(DropByte(DropByte(DropByte(DropByte(DropByte(v)))))))) == 0
  {
    assert (((((((v >> 8) >> 8) >> 8) >> 8) >> 8) >> 8) >> 8) >> 8 == 0;
  }

  /** Canonical strings that differ in exactly one byte have fingerprints that differ in both halves. */
  lemma OneByteChangesFingerprint(bytes: Bytes, i: nat, b: Byte)
    requires i < |bytes| && bytes[i] != b
    ensures Fingerprint(bytes)[..8] != Fingerprint(bytes[i := b])[..8]
    ensures Fingerprint(bytes)[8..] != Fingerprint(bytes[i := b])[8..]
  {
    OneByteChangesHashes(bytes, i, b);
    var other := bytes[i := b];
    HashesDifferInBytes(FirstHash(bytes), FirstHash(other));
    HashesDifferInBytes(SecondHash(bytes), SecondHash(other));
    FingerprintHalves(bytes);
    FingerprintHalves(other);
  }

  lemma HashesDifferInBytes(v: bv64, w: bv64)
    requires v != w
    ensures DoubleWordBytes(v, 8) != DoubleWordBytes(w, 8)
  {
    EightBytesDropped(v);
    EightBytesDropped(w);
    if DoubleWordBytes(v, 8) == DoubleWordBytes(w, 8) {
      BytesDetermine(v, w, 8);
    }
  }

  lemma FingerprintHalves(bytes: Bytes)
    ensures Fingerprint(bytes)[..8] == DoubleWordBytes(FirstHash(bytes), 8)
    ensures Fingerprint(bytes)[8..] == DoubleWordBytes(SecondHash(bytes), 8)
  {
  }
}
