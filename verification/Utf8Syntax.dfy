/** The octet grammar of section 4 of RFC 3629, and that strict UTF-8 is exactly what it generates. */
module Utf8Syntax {
  import opened Outcomes
  import opened Utf8

  predicate IsTail(b: Byte) {
    0x80 <= b <= 0xbf
  }

  predicate Syntax2(b0: Byte, b1: Byte) {
    0xc2 <= b0 <= 0xdf && IsTail(b1)
  }

  predicate Syntax3(b0: Byte, b1: Byte, b2: Byte) {
    || (b0 == 0xe0 && 0xa0 <= b1 <= 0xbf && IsTail(b2))
    || (0xe1 <= b0 <= 0xec && IsTail(b1) && IsTail(b2))
    || (b0 == 0xed && 0x80 <= b1 <= 0x9f && IsTail(b2))
    || (0xee <= b0 <= 0xef && IsTail(b1) && IsTail(b2))
  }

  predicate Syntax4(b0: Byte, b1: Byte, b2: Byte, b3: Byte) {
    || (b0 == 0xf0 && 0x90 <= b1 <= 0xbf && IsTail(b2) && IsTail(b3))
    || (0xf1 <= b0 <= 0xf3 && IsTail(b1) && IsTail(b2) && IsTail(b3))
    || (b0 == 0xf4 && 0x80 <= b1 <= 0x8f && IsTail(b2) && IsTail(b3))
  }

  /** The first `n` bytes are one UTF8-char of the grammar. */
  predicate StartsWithChar(b: Bytes, n: nat) {
    || (n == 1 && |b| >= 1 && b[0] <= 0x7f)
    || (n == 2 && |b| >= 2 && Syntax2(b[0], b[1]))
    || (n == 3 && |b| >= 3 && Syntax3(b[0], b[1], b[2]))
    || (n == 4 && |b| >= 4 && Syntax4(b[0], b[1], b[2], b[3]))
  }

  /** UTF8-octets: any number of UTF8-chars. */
  ghost predicate IsOctets(b: Bytes)
    decreases |b|
  {
    |b| == 0 || exists n: nat :: 0 < n <= |b| && StartsWithChar(b, n) && IsOctets(b[n..])
  }

  // ---------- the scan decides the grammar ----------

  lemma TwoBytesSyntax(b0: Byte, b1: Byte)
    requires SequenceLength(b0) == 2
    ensures Syntax2(b0, b1) <==> IsContinuation(b1) && !Rejected(2, Shifted(LeadBits(b0), b1))
  {
  }

  lemma ThreeBytesSyntax(b0: Byte, b1: Byte, b2: Byte)
    requires SequenceLength(b0) == 3
    ensures Syntax3(b0, b1, b2) <==>
            IsContinuation(b1) && IsContinuation(b2) && !Rejected(3, Shifted(Shifted(LeadBits(b0), b1), b2))
  {
  }

  lemma FourBytesSyntax(b0: Byte, b1: Byte, b2: Byte, b3: Byte)
    requires SequenceLength(b0) == 4
    ensures Syntax4(b0, b1, b2, b3) <==>
            && IsContinuation(b1) && IsContinuation(b2) && IsContinuation(b3)
            && !Rejected(4, Shifted(Shifted(Shifted(LeadBits(b0), b1), b2), b3))
  {
  }

  lemma OneByteSyntax(b0: Byte)
    requires SequenceLength(b0) == 1
    ensures b0 <= 0x7f && !Rejected(1, LeadBits(b0))
  {
  }

  lemma LengthOfSyntax(b: Bytes, n: nat)
    requires StartsWithChar(b, n)
    ensures SequenceLength(b[0]) == n
  {
  }

  lemma AnnouncedSyntax(b: Bytes)
    requires |b| > 0 && 0 < SequenceLength(b[0]) <= |b|
    ensures StartsWithChar(b, SequenceLength(b[0])) <==> DecodeFirst(b).Character?
  {
    var n := SequenceLength(b[0]);
    LongestSequence(b[0]);
    AccumulateFew(LeadBits(b[0]), b[1..n]);
    if n == 1 {
      OneByteSyntax(b[0]);
    } else if n == 2 {
      TwoBytesSyntax(b[0], b[1]);
    } else if n == 3 {
      ThreeBytesSyntax(b[0], b[1], b[2]);
    } else {
      FourBytesSyntax(b[0], b[1], b[2], b[3]);
    }
  }

  /** A string starts with a character of the grammar exactly when the scan reads one, of the same length. */
  lemma CharacterSyntax(b: Bytes, n: nat)
    requires |b| > 0
    ensures StartsWithChar(b, n) <==> DecodeFirst(b).Character? && DecodeFirst(b).length == n
  {
    if StartsWithChar(b, n) {
      LengthOfSyntax(b, n);
    }
    if 0 < SequenceLength(b[0]) <= |b| {
      AnnouncedSyntax(b);
    }
  }

  /** What is accepted is exactly what the grammar generates. */
  lemma {:induction false} GrammarExactly(b: Bytes)
    ensures IsUtf8(b) <==> IsOctets(b)
    decreases |b|
  {
    if |b| == 0 {
      assert Encode([]) == b;
      return;
    }
    PeelCharacter(b);
    var d := DecodeFirst(b);
    if d.Character? {
      CharacterSyntax(b, d.length);
      EncodeDecoded(b);
      GrammarExactly(b[d.length..]);
    }
    forall n: nat | StartsWithChar(b, n)
      ensures d.Character? && d.length == n
    {
      CharacterSyntax(b, n);
    }
  }
}
