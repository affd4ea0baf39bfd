/**
 * The register as a remainder of polynomial division over GF(2), section 12.1 of RFC 3720.
 *
 * A polynomial is the finite set of its exponents with coefficient one, so addition is symmetric
 * difference. A quotient or a message is a string of coefficients, highest first.
 */
module Crc32cPolynomial {
  import opened Outcomes
  import opened Words
  import opened Crc32c
  import opened Crc32cBursts

  type Poly = set<nat>

  /** x^32 + x^28 + x^27 + x^26 + x^25 + x^23 + x^22 + x^20 + x^19 + x^18 + x^14 + x^13 + x^11 + x^10
      + x^9 + x^8 + x^6 + 1. */
  const GENERATOR: Poly := {32, 28, 27, 26, 25, 23, 22, 20, 19, 18, 14, 13, 11, 10, 9, 8, 6, 0}

  function Plus(p: Poly, q: Poly): Poly {
    (p - q) + (q - p)
  }

  function TimesX(p: Poly): Poly {
    set e | e in p :: e + 1
  }

  function Term(coefficient: bool, p: Poly): Poly {
    if coefficient then p else {}
  }

  /** The product of `p` with the polynomial whose coefficients are given, highest first. */
  function Product(coefficients: seq<bool>, p: Poly): Poly
    decreases |coefficients|
  {
    if |coefficients| == 0 then {}
    else
      var n := |coefficients| - 1;
      Plus(TimesX(Product(coefficients[..n], p)), Term(coefficients[n], p))
  }

  /** The reflected register: bit 31 holds the coefficient of x^0 and bit 0 that of x^31. */
  predicate HasTerm(r: bv32, e: nat)
    requires e < 32
  {
    Odd(Halves(r, 31 - e))
  }

  function RegisterPoly(r: bv32): Poly {
    set e: nat | e < 32 && HasTerm(r, e)
  }

  /** The starting register times x^n plus the n message bits times x^32. */
  function Dividend(state: bv32, bits: seq<bool>): Poly
    decreases |bits|
  {
    if |bits| == 0 then RegisterPoly(state)
    else
      var n := |bits| - 1;
      Plus(TimesX(Dividend(state, bits[..n])), Term(bits[n], {32}))
  }

  ghost predicate IsRemainder(dividend: Poly, r: Poly) {
    && (forall e | e in r :: e < 32)
    && exists quotient: seq<bool> :: dividend == Plus(r, Product(quotient, GENERATOR))
  }

  // ---------- polynomial algebra ----------

  lemma PlusExchange(p: Poly, q: Poly, r: Poly, s: Poly)
    ensures Plus(Plus(p, q), Plus(r, s)) == Plus(Plus(p, r), Plus(q, s))
  {
  }

  lemma TimesXPlus(p: Poly, q: Poly)
    ensures TimesX(Plus(p, q)) == Plus(TimesX(p), TimesX(q))
  {
    forall e: nat
      ensures e in TimesX(Plus(p, q)) <==> e in Plus(TimesX(p), TimesX(q))
    {
      ShiftMember(p, e);
      ShiftMember(q, e);
      ShiftMember(Plus(p, q), e);
    }
  }

  lemma ShiftMember(p: Poly, e: nat)
    ensures e in TimesX(p) <==> e > 0 && e - 1 in p
  {
    if e > 0 && e - 1 in p {
      assert (e - 1) + 1 in TimesX(p);
    }
  }

  /** The dividend written out: exponent by exponent. */
  lemma {:induction false} DividendExponents(state: bv32, bits: seq<bool>, e: nat)
    ensures e in Dividend(state, bits) <==>
            ((e >= |bits| && e - |bits| in RegisterPoly(state))
             != (32 <= e < 32 + |bits| && bits[|bits| - 1 - (e - 32)]))
    decreases |bits|
  {
    if |bits| > 0 {
      var n := |bits| - 1;
      ShiftMember(Dividend(state, bits[..n]), e);
      if e > 0 {
        DividendExponents(state, bits[..n], e - 1);
      }
    }
  }

  // ---------- one step of the register ----------

  lemma {:induction false} HalvesXor(a: bv32, b: bv32, n: nat)
    ensures Halves(Xor(a, b), n) == Xor(Halves(a, n), Halves(b, n))
    decreases n
  {
    if n > 0 {
      XorHalf(a, b);
      HalvesXor(Half(a), Half(b), n - 1);
    }
  }

  lemma RegisterPolyXor(a: bv32, b: bv32)
    ensures RegisterPoly(Xor(a, b)) == Plus(RegisterPoly(a), RegisterPoly(b))
  {
    forall e: nat | e < 32
      ensures HasTerm(Xor(a, b), e) <==> HasTerm(a, e) != HasTerm(b, e)
    {
      HalvesXor(a, b, 31 - e);
      XorOdd(Halves(a, 31 - e), Halves(b, 31 - e));
    }
  }

  lemma AllHalved(r: bv32)
    ensures Halves(r, 32) == 0
  {
    calc {
      Halves(0xffff_ffff, 32);
      Halves(0x0fff_ffff, 28);
      Halves(0x00ff_ffff, 24);
      Halves(0x000f_ffff, 20);
      Halves(0x0000_ffff, 16);
      Halves(0x0000_0fff, 12);
      Halves(0x0000_00ff, 8);
      Halves(0x0000_000f, 4);
      0;
    }
    HalvesMonotone(0xffff_ffff, r, 32);
  }

  /** Halving the register multiplies by x and drops the x^32 term. */
  lemma HalfIsTimesX(r: bv32)
    ensures TimesX(RegisterPoly(r)) == RegisterPoly(Half(r)) + Term(Odd(r), {32})
  {
    AllHalved(r);
    forall e: nat
      ensures e in TimesX(RegisterPoly(r)) <==> e in RegisterPoly(Half(r)) + Term(Odd(r), {32})
    {
      ShiftMember(RegisterPoly(r), e);
      assert Halves(r, 0) == r;
      if 0 < e < 32 {
        assert HasTerm(Half(r), e) == HasTerm(r, e - 1);
      } else if e == 0 {
        assert Halves(r, 32) == Halves(Half(r), 31);
        assert !Odd(0);
      }
    }
  }

  lemma HalveFour(r: bv32, n: nat)
    ensures Halves(r, n + 4) == Half(Half(Half(Half(Halves(r, n)))))
  {
    HalvesCompose(r, n, 4);
    var v := Halves(r, n);
    assert Halves(v, 4) == Halves(Half(Half(v)), 2);
    assert Halves(Half(Half(v)), 2) == Halves(Half(Half(Half(Half(v)))), 0);
  }

  lemma FewHalves(v: bv32)
    ensures Halves(v, 1) == Half(v)
    ensures Halves(v, 2) == Half(Half(v))
    ensures Halves(v, 3) == Half(Half(Half(v)))
  {
    assert Halves(v, 2) == Halves(Half(Half(v)), 0);
    assert Halves(v, 3) == Halves(Half(Half(v)), 1);
    assert Halves(Half(Half(v)), 1) == Halves(Half(Half(Half(v))), 0);
  }

  lemma OddHalves(v: bv32)
    ensures Odd(v) <==> v & 1 == 1
    ensures Odd(Half(v)) <==> v & 2 == 2
    ensures Odd(Half(Half(v))) <==> v & 4 == 4
    ensures Odd(Half(Half(Half(v)))) <==> v & 8 == 8
  {
  }

  /** Four neighbouring terms of a register, read off the register shifted to them. */
  lemma FourTerms(r: bv32, v: bv32, e: nat)
    requires 3 <= e < 32
    requires v == Halves(r, 31 - e)
    ensures e in RegisterPoly(r) <==> v & 1 == 1
    ensures e - 1 in RegisterPoly(r) <==> v & 2 == 2
    ensures e - 2 in RegisterPoly(r) <==> v & 4 == 4
    ensures e - 3 in RegisterPoly(r) <==> v & 8 == 8
  {
    HalvesCompose(r, 31 - e, 1);
    HalvesCompose(r, 31 - e, 2);
    HalvesCompose(r, 31 - e, 3);
    FewHalves(v);
    OddHalves(v);
    assert HasTerm(r, e) <==> Odd(v);
    assert HasTerm(r, e - 1) <==> Odd(Half(v));
    assert HasTerm(r, e - 2) <==> Odd(Half(Half(v)));
    assert HasTerm(r, e - 3) <==> Odd(Half(Half(Half(v))));
  }

  lemma PolynomialHalves(r: bv32)
    requires r == 0x82f6_3b78
    ensures Halves(r, 4) == 0x82f63b7
    ensures Halves(r, 8) == 0x82f63b
    ensures Halves(r, 12) == 0x82f63
    ensures Halves(r, 16) == 0x82f6
    ensures Halves(r, 20) == 0x82f
    ensures Halves(r, 24) == 0x82
    ensures Halves(r, 28) == 0x8
  {
    HalveFour(r, 0);
    HalveFour(r, 4);
    HalveFour(r, 8);
    HalveFour(r, 12);
    HalveFour(r, 16);
    HalveFour(r, 20);
    HalveFour(r, 24);
  }

  predicate HasGeneratorTerms(terms: Poly) {
    && 31 !in terms && 30 !in terms && 29 !in terms && 28 in terms
    && 27 in terms && 26 in terms && 25 in terms && 24 !in terms
    && 23 in terms && 22 in terms && 21 !in terms && 20 in terms
    && 19 in terms && 18 in terms && 17 !in terms && 16 !in terms
    && 15 !in terms && 14 in terms && 13 in terms && 12 !in terms
    && 11 in terms && 10 in terms && 9 in terms && 8 in terms
    && 7 !in terms && 6 in terms && 5 !in terms && 4 !in terms
    && 3 !in terms && 2 !in terms && 1 !in terms && 0 in terms
  }

  lemma PolynomialTerms(r: bv32)
    requires r == 0x82f6_3b78
    ensures HasGeneratorTerms(RegisterPoly(r))
  {
    PolynomialHalves(r);
    FourTerms(r, 0x82f63b78, 31);
    FourTerms(r, 0x82f63b7, 27);
    FourTerms(r, 0x82f63b, 23);
    FourTerms(r, 0x82f63, 19);
    FourTerms(r, 0x82f6, 15);
    FourTerms(r, 0x82f, 11);
    FourTerms(r, 0x82, 7);
    FourTerms(r, 0x8, 3);
  }

  lemma GeneratorTermsSuffice(terms: Poly)
    requires forall e | e in terms :: e < 32
    requires HasGeneratorTerms(terms)
    ensures terms == GENERATOR - {32}
  {
  }

  /** The reflected constant and the published generator are the same polynomial. */
  lemma PolynomialIsGenerator()
    ensures RegisterPoly(POLYNOMIAL) == GENERATOR - {32}
  {
    PolynomialTerms(POLYNOMIAL);
    GeneratorTermsSuffice(RegisterPoly(POLYNOMIAL));
  }

  lemma ReduceTop(half: Poly, low: Poly)
    requires 32 !in half && 32 !in low
    ensures half + {32} == Plus(Plus(half, low), low + {32})
  {
  }

  /** One step multiplies the register by x and reduces by the generator when x^32 appears. */
  lemma StepPoly(r: bv32)
    ensures TimesX(RegisterPoly(r)) == Plus(RegisterPoly(BitStep(r)), Term(Odd(r), GENERATOR))
  {
    HalfIsTimesX(r);
    if Odd(r) {
      RegisterPolyXor(Half(r), POLYNOMIAL);
      PolynomialIsGenerator();
      ReduceTop(RegisterPoly(Half(r)), RegisterPoly(POLYNOMIAL));
      assert RegisterPoly(POLYNOMIAL) + {32} == GENERATOR;
    }
  }

  lemma OneAsPoly()
    ensures RegisterPoly(BitWord(true)) == {31}
    ensures RegisterPoly(BitWord(false)) == {}
  {
    assert Half(1) == 0 && Odd(1) && !Odd(0);
    forall e: nat | e < 32
      ensures HasTerm(1, e) <==> e == 31
      ensures !HasTerm(0, e)
    {
      HalvesOfZero(31 - e);
      if e < 31 {
        assert Halves(1, 31 - e) == Halves(Half(1), 30 - e);
        HalvesOfZero(30 - e);
      }
    }
  }

  /** The bit that leaves the register, which decides whether the generator is subtracted. */
  predicate Carry(state: bv32, bit: bool) {
    Odd(Xor(state, BitWord(bit)))
  }

  ghost predicate ReducesBy(state: bv32, bit: bool, g: Poly) {
    Plus(TimesX(RegisterPoly(state)), Term(bit, {32}))
      == Plus(RegisterPoly(FeedBit(state, bit)), Term(Carry(state, bit), g))
  }

  lemma FeedBitReduces(state: bv32, bit: bool)
    ensures ReducesBy(state, bit, GENERATOR)
  {
    var mixed := Xor(state, BitWord(bit));
    RegisterPolyXor(state, BitWord(bit));
    OneAsPoly();
    StepPoly(mixed);
    TimesXPlus(RegisterPoly(state), RegisterPoly(BitWord(bit)));
    assert TimesX({31}) == {32};
  }

  // ---------- the register is the remainder ----------

  /** Adding a shifted multiple of g and reducing once more extends the quotient by one coefficient. */
  lemma ExtendQuotient(register: Poly, next: Poly, product: Poly, bit: Poly, carry: Poly)
    requires Plus(TimesX(register), bit) == Plus(next, carry)
    ensures Plus(TimesX(Plus(register, product)), bit) == Plus(next, Plus(TimesX(product), carry))
  {
    TimesXPlus(register, product);
    PlusExchange(TimesX(register), TimesX(product), bit, {});
    PlusExchange(next, carry, TimesX(product), {});
  }

  /** The carries out of the register, in order, are the coefficients of the quotient. */
  lemma {:induction false} QuotientOf(state: bv32, bits: seq<bool>, g: Poly) returns (quotient: seq<bool>)
    requires forall s, b :: ReducesBy(s, b, g)
    ensures |quotient| == |bits|
    ensures Dividend(state, bits) == Plus(RegisterPoly(Feed(state, bits)), Product(quotient, g))
    decreases |bits|
  {
    if |bits| == 0 {
      quotient := [];
    } else {
      var n := |bits| - 1;
      var before, bit := Feed(state, bits[..n]), bits[n];
      var front := QuotientOf(state, bits[..n], g);
      quotient := front + [Carry(before, bit)];
      assert quotient[..n] == front;
      assert ReducesBy(before, bit, g);
      ExtendQuotient(RegisterPoly(before), RegisterPoly(FeedBit(before, bit)), Product(front, g),
                     Term(bit, {32}), Term(Carry(before, bit), g));
    }
  }

  lemma RegisterIsRemainder(state: bv32, bytes: Bytes)
    ensures IsRemainder(Dividend(state, Bits(bytes)), RegisterPoly(Crc(state, bytes)))
  {
    forall s, b
      ensures ReducesBy(s, b, GENERATOR)
    {
      FeedBitReduces(s, b);
    }
    var quotient := QuotientOf(state, Bits(bytes), GENERATOR);
  }

  // ---------- the remainder is unique ----------

  /** A product with the generator vanishes only when the multiplier does; otherwise its degree is at least 32. */
  lemma {:induction false} ProductDegree(q: seq<bool>, g: Poly) returns (top: nat)
    requires true in q
    requires 32 in g && forall e | e in g :: e <= 32
    ensures top >= 32 && top in Product(q, g)
    ensures forall e | e in Product(q, g) :: e <= top
    decreases |q|
  {
    var n := |q| - 1;
    assert q == q[..n] + [q[n]];
    var front := Product(q[..n], g);
    if true in q[..n] {
      var t := ProductDegree(q[..n], g);
      top := t + 1;
    } else {
      ProductOfZeros(q[..n], g);
      top := 32;
    }
    forall e: nat
      ensures e in TimesX(front) <==> e > 0 && e - 1 in front
    {
      ShiftMember(front, e);
    }
  }

  lemma {:induction false} ProductOfZeros(q: seq<bool>, g: Poly)
    requires true !in q
    ensures Product(q, g) == {}
    decreases |q|
  {
    if |q| > 0 {
      var n := |q| - 1;
      assert q[n] in q;
      ProductOfZeros(q[..n], g);
    }
  }

  lemma {:induction false} ProductXor(p: seq<bool>, q: seq<bool>, g: Poly)
    requires |p| == |q|
    ensures Product(XorBits(p, q), g) == Plus(Product(p, g), Product(q, g))
    decreases |p|
  {
    if |p| > 0 {
      var n := |p| - 1;
      assert XorBits(p, q)[..n] == XorBits(p[..n], q[..n]);
      ProductXor(p[..n], q[..n], g);
      TimesXPlus(Product(p[..n], g), Product(q[..n], g));
      PlusExchange(TimesX(Product(p[..n], g)), TimesX(Product(q[..n], g)),
                   Term(p[n], g), Term(q[n], g));
    }
  }

  /** Leading zero coefficients do not change a product. */
  lemma {:induction false} ProductPad(q: seq<bool>, g: Poly)
    ensures Product([false] + q, g) == Product(q, g)
    decreases |q|
  {
    var padded := [false] + q;
    if |q| == 0 {
      ProductOfZeros(padded, g);
    } else {
      var n := |q| - 1;
      assert padded[..n + 1] == [false] + q[..n];
      ProductPad(q[..n], g);
    }
  }

  lemma {:induction false} PadTo(q: seq<bool>, n: nat, g: Poly) returns (padded: seq<bool>)
    requires |q| <= n
    ensures |padded| == n
    ensures Product(padded, g) == Product(q, g)
    decreases n - |q|
  {
    if |q| == n {
      padded := q;
    } else {
      ProductPad(q, g);
      padded := PadTo([false] + q, n, g);
    }
  }

  lemma PlusTransfer(r: Poly, s: Poly, x: Poly, y: Poly)
    requires Plus(r, x) == Plus(s, y)
    ensures Plus(r, s) == Plus(x, y)
  {
    forall e: nat
      ensures e in Plus(r, s) <==> e in Plus(x, y)
    {
      assert e in Plus(r, x) <==> e in Plus(s, y);
    }
  }

  lemma PlusEmpty(r: Poly, s: Poly)
    requires Plus(r, s) == {}
    ensures r == s
  {
    forall e: nat
      ensures e in r <==> e in s
    {
      assert e !in Plus(r, s);
    }
  }

  lemma SmallMultipleVanishes(r: Poly, s: Poly, p: seq<bool>, q: seq<bool>, g: Poly)
    requires 32 in g && forall e | e in g :: e <= 32
    requires (forall e | e in r :: e < 32) && (forall e | e in s :: e < 32)
    requires Plus(r, Product(p, g)) == Plus(s, Product(q, g))
    ensures r == s
  {
    var n := if |p| > |q| then |p| else |q|;
    var p1 := PadTo(p, n, g);
    var q1 := PadTo(q, n, g);
    var difference := XorBits(p1, q1);
    ProductXor(p1, q1, g);
    PlusTransfer(r, s, Product(p, g), Product(q, g));
    if true in difference {
      var top := ProductDegree(difference, g);
      assert top in Plus(r, s);
    } else {
      ProductOfZeros(difference, g);
      PlusEmpty(r, s);
    }
  }

  lemma RemainderUnique(dividend: Poly, r: Poly, s: Poly)
    requires IsRemainder(dividend, r)
    requires IsRemainder(dividend, s)
    ensures r == s
  {
    var p: seq<bool> :| dividend == Plus(r, Product(p, GENERATOR));
    var q: seq<bool> :| dividend == Plus(s, Product(q, GENERATOR));
    SmallMultipleVanishes(r, s, p, q, GENERATOR);
  }

  lemma {:induction false} TermsDetermine(v: bv32, w: bv32, n: nat)
    requires n <= 32
    requires Halves(v, n) == Halves(w, n)
    requires forall k | 0 <= k < n :: Odd(Halves(v, k)) == Odd(Halves(w, k))
    ensures v == w
    decreases n
  {
    if n > 0 {
      var k := n - 1;
      HalvesCompose(v, k, 1);
      HalvesCompose(w, k, 1);
      FewHalves(Halves(v, k));
      FewHalves(Halves(w, k));
      HalfAndParityDetermine(Halves(v, k), Halves(w, k));
      TermsDetermine(v, w, k);
    }
  }

  lemma RegisterPolyInjective(v: bv32, w: bv32)
    requires RegisterPoly(v) == RegisterPoly(w)
    ensures v == w
  {
    AllHalved(v);
    AllHalved(w);
    forall k | 0 <= k < 32
      ensures Odd(Halves(v, k)) == Odd(Halves(w, k))
    {
      assert 31 - k in RegisterPoly(v) <==> HasTerm(v, 31 - k);
      assert 31 - k in RegisterPoly(w) <==> HasTerm(w, 31 - k);
    }
    TermsDetermine(v, w, 32);
  }

  /** The register after a byte string is the one and only remainder of the division. */
  lemma CrcIsTheRemainder(state: bv32, bytes: Bytes, r: bv32)
    ensures r == Crc(state, bytes) <==> IsRemainder(Dividend(state, Bits(bytes)), RegisterPoly(r))
  {
    RegisterIsRemainder(state, bytes);
    if IsRemainder(Dividend(state, Bits(bytes)), RegisterPoly(r)) {
      RemainderUnique(Dividend(state, Bits(bytes)), RegisterPoly(r), RegisterPoly(Crc(state, bytes)));
      RegisterPolyInjective(r, Crc(state, bytes));
    }
  }
}
