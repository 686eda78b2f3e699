/**
 Properties of the UTF-8 codec: the shape of the length table, what the
 gate accepts compared with the well-formed byte sequences of section 4 of
 RFC 3629, and the round trips between the encoder and the gate.
 */
module Utf8Lemmas {
  import opened Buffers
  import opened Utf8

  // ---------------------------------------------------------------------------
  // Reference definitions
  // ---------------------------------------------------------------------------

  /** UTF8-tail of RFC 3629: a continuation byte. */
  predicate IsTail(b: byte)
  {
    0x80 <= b <= 0xBF
  }

  /** One UTF8-char of the grammar in section 4 of RFC 3629. */
  predicate Rfc3629Char(s: seq<byte>)
  {
    || (|s| == 1 && s[0] <= 0x7F)
    || (|s| == 2 && 0xC2 <= s[0] <= 0xDF && IsTail(s[1]))
    || (|s| == 3 && IsTail(s[2]) &&
        (|| (s[0] == 0xE0 && 0xA0 <= s[1] <= 0xBF)
         || (0xE1 <= s[0] <= 0xEC && IsTail(s[1]))
         || (s[0] == 0xED && 0x80 <= s[1] <= 0x9F)
         || (0xEE <= s[0] <= 0xEF && IsTail(s[1]))))
    || (|s| == 4 && IsTail(s[2]) && IsTail(s[3]) &&
        (|| (s[0] == 0xF0 && 0x90 <= s[1] <= 0xBF)
         || (0xF1 <= s[0] <= 0xF3 && IsTail(s[1]))
         || (s[0] == 0xF4 && 0x80 <= s[1] <= 0x8F)))
  }

  /** The loop of isValidUTF8String without the checks made after decoding:
      the buffer cuts into table-sized sequences, each accepted by the rule. */
  predicate SplitsIntoLegal(rule: Legality, buf: seq<byte>)
    decreases |buf|
  {
    if |buf| == 0 then true
    else
      var n := 1 + TrailingBytesForUTF8(buf[0]);
      n <= |buf| && Legal(rule, buf[..n]) && SplitsIntoLegal(rule, buf[n..])
  }

  predicate AllScalars(vs: seq<nat>)
  {
    forall i :: 0 <= i < |vs| ==> IsScalar(vs[i])
  }

  // ---------------------------------------------------------------------------
  // Arithmetic helpers
  // ---------------------------------------------------------------------------

  /** Base-64 digits of a value below 2^21, as the encoder peels them off. */
  lemma DigitsOfFour(x0: int, x1: int, x2: int, x3: int)
    requires 0 <= x0 < 8 && 0 <= x1 < 64 && 0 <= x2 < 64 && 0 <= x3 < 64
    ensures var v := x0 * 262144 + x1 * 4096 + x2 * 64 + x3;
      v / 262144 == x0 && (v / 4096) % 64 == x1 && (v / 64) % 64 == x2 && v % 64 == x3
  {
    var v := x0 * 262144 + x1 * 4096 + x2 * 64 + x3;
    assert v / 64 == x0 * 4096 + x1 * 64 + x2;
    assert v / 4096 == x0 * 64 + x1;
    assert v / 262144 == x0;
  }

  lemma DigitsOfThree(x0: int, x1: int, x2: int)
    requires 0 <= x0 < 16 && 0 <= x1 < 64 && 0 <= x2 < 64
    ensures var v := x0 * 4096 + x1 * 64 + x2;
      v / 4096 == x0 && (v / 64) % 64 == x1 && v % 64 == x2
  {
    var v := x0 * 4096 + x1 * 64 + x2;
    assert v / 64 == x0 * 64 + x1;
    assert v / 4096 == x0;
  }

  /** The digits of a supplementary-plane value: the leading digit is at most
      4, and it pins the range of the next one as 0xF0 and 0xF4 require. */
  lemma FourByteDigits(ch: int)
    requires 0x10000 <= ch <= MaxLegalUtf32
    ensures var a, b := ch / 262144, (ch / 4096) % 64;
      0 <= a <= 4 && (a == 0 ==> b >= 16) && (a == 4 ==> b <= 15)
    ensures (0xF0 + ch / 262144) * 262144 + (0x80 + (ch / 4096) % 64) * 4096
          + (0x80 + (ch / 64) % 64) * 64 + (0x80 + ch % 64) - 0x03C82080 == ch
  {
  }

  /** The value Accumulate builds, spelled out for the lengths 1 to 4. */
  lemma AccumulateDigits(s: seq<byte>)
    requires 1 <= |s| <= 4
    ensures |s| == 1 ==> Accumulate(s) == s[0] as int
    ensures |s| == 2 ==> Accumulate(s) == s[0] as int * 64 + s[1] as int
    ensures |s| == 3 ==> Accumulate(s) == s[0] as int * 4096 + s[1] as int * 64 + s[2] as int
    ensures |s| == 4 ==>
      Accumulate(s) == s[0] as int * 262144 + s[1] as int * 4096 + s[2] as int * 64 + s[3] as int
  {
    assert s[..1][..0] == [];
    assert Accumulate(s[..1]) == s[0] as int;
    if |s| >= 2 {
      assert s[..2][..1] == s[..1];
      assert Accumulate(s[..2]) == s[0] as int * 64 + s[1] as int;
    }
    if |s| >= 3 {
      assert s[..3][..2] == s[..2];
      assert Accumulate(s[..3]) == s[0] as int * 4096 + s[1] as int * 64 + s[2] as int;
    }
    if |s| == 4 {
      assert s[..4][..3] == s[..3];
    }
    assert s[..|s|] == s;
  }

  // ---------------------------------------------------------------------------
  // The length table
  // ---------------------------------------------------------------------------

  /** trailingBytesForUTF8 by ranges of the leading byte. */
  lemma TrailingBytesByRange(b: byte)
    ensures b <= 0xBF ==> TrailingBytesForUTF8(b) == 0
    ensures 0xC0 <= b <= 0xDF ==> TrailingBytesForUTF8(b) == 1
    ensures 0xE0 <= b <= 0xEF ==> TrailingBytesForUTF8(b) == 2
    ensures 0xF0 <= b <= 0xF7 ==> TrailingBytesForUTF8(b) == 3
    ensures 0xF8 <= b <= 0xFB ==> TrailingBytesForUTF8(b) == 4
    ensures 0xFC <= b ==> TrailingBytesForUTF8(b) == 5
  {
    var t := TrailingBytesTable();
    var a := seq(192, _ => 0);
    var b1 := seq(32, _ => 1);
    var b2 := seq(16, _ => 2);
    var b3 := seq(8, _ => 3);
    var b4 := seq(4, _ => 4);
    var b5 := seq(4, _ => 5);
    assert t == a + b1 + b2 + b3 + b4 + b5;
    if b < 192 { assert t[b] == a[b]; }
    else if b < 224 { assert t[b] == b1[b - 192]; }
    else if b < 240 { assert t[b] == b2[b - 224]; }
    else if b < 248 { assert t[b] == b3[b - 240]; }
    else if b < 252 { assert t[b] == b4[b - 248]; }
    else { assert t[b] == b5[b - 252]; }
  }

  /** The table the model reads agrees with every one of the 256 entries of
      trailingBytesForUTF8 as declared. */
  lemma TrailingBytesTranscribed(b: byte)
    ensures TrailingBytesForUTF8(b) == TrailingBytesRows()[b / 16][b % 16]
  {
    TrailingBytesByRange(b);
    var row := TrailingBytesRows()[b / 16];
    if b / 16 < 12 {
      assert row == [0, 0, 0, 0, 0, 0, 0, 0, 0, 0, 0, 0, 0, 0, 0, 0];
    } else if b / 16 < 14 {
      assert row == [1, 1, 1, 1, 1, 1, 1, 1, 1, 1, 1, 1, 1, 1, 1, 1];
    }
  }

  // ---------------------------------------------------------------------------
  // isLegalUTF8 against RFC 3629
  // ---------------------------------------------------------------------------

  /** What a sequence of table-given length that passes isLegalUTF8 looks
      like: the leading byte is ASCII or 0xC2..0xF4, the length is the one
      the leading byte announces (so never 5 or 6), and every byte after the
      first is a continuation byte except that after 0xED or 0xF4 the second
      byte is only bounded from above. */
  lemma LegalSequenceShape(s: seq<byte>)
    requires |s| >= 1 && |s| == 1 + TrailingBytesForUTF8(s[0])
    requires IsLegalUTF8(s)
    ensures s[0] <= 0x7F || 0xC2 <= s[0] <= 0xF4
    ensures |s| <= 4
    ensures |s| == 1 <==> s[0] <= 0x7F
    ensures |s| == 2 <==> 0xC2 <= s[0] <= 0xDF
    ensures |s| == 3 <==> 0xE0 <= s[0] <= 0xEF
    ensures |s| == 4 <==> 0xF0 <= s[0] <= 0xF4
    ensures forall i :: 2 <= i < |s| ==> IsTail(s[i])
    ensures |s| >= 2 && s[0] != 0xED && s[0] != 0xF4 ==> IsTail(s[1])
    ensures |s| >= 2 ==> s[1] <= 0xBF
  {
    TrailingBytesByRange(s[0]);
  }

  /** Every well-formed RFC 3629 character passes isLegalUTF8 as written,
      at the length the table announces. */
  lemma Rfc3629CharIsLegal(s: seq<byte>)
    requires Rfc3629Char(s)
    ensures |s| == 1 + TrailingBytesForUTF8(s[0])
    ensures IsLegalUTF8(s) && IsLegalUTF8Corrected(s)
  {
    TrailingBytesByRange(s[0]);
  }

  /** The corrected isLegalUTF8, at the table's length, accepts exactly the
      RFC 3629 characters. */
  lemma CorrectedLegalIffRfc3629(s: seq<byte>)
    requires |s| >= 1
    ensures (|s| == 1 + TrailingBytesForUTF8(s[0]) && IsLegalUTF8Corrected(s)) <==> Rfc3629Char(s)
  {
    TrailingBytesByRange(s[0]);
    if Rfc3629Char(s) {
      Rfc3629CharIsLegal(s);
    }
  }

  /** The as-written isLegalUTF8 accepts exactly the RFC 3629 characters plus
      those where 0xED or 0xF4 is followed by a byte below 0x80. */
  lemma AsWrittenLegalGap(s: seq<byte>)
    requires |s| >= 1 && |s| == 1 + TrailingBytesForUTF8(s[0])
    ensures IsLegalUTF8(s) <==>
      Rfc3629Char(s) || (IsLegalUTF8(s) && (s[0] == 0xED || s[0] == 0xF4) && s[1] < 0x80)
    ensures IsLegalUTF8(s) && !Rfc3629Char(s) ==> (s[0] == 0xED || s[0] == 0xF4) && s[1] < 0x80
  {
    TrailingBytesByRange(s[0]);
    if Rfc3629Char(s) {
      Rfc3629CharIsLegal(s);
    }
  }

  // ---------------------------------------------------------------------------
  // Decoding after the gate
  // ---------------------------------------------------------------------------

  /** Every sequence isLegalUTF8 accepts at the table's length decodes to a
      scalar value, so the range and surrogate checks after decoding in
      isValidUTF8String never reject anything. */
  lemma LegalDecodesToScalar(s: seq<byte>)
    requires |s| >= 1 && |s| == 1 + TrailingBytesForUTF8(s[0])
    requires IsLegalUTF8(s)
    ensures IsScalar(DecodeSequence(s))
  {
    LegalSequenceShape(s);
    AccumulateDigits(s);
  }

  /** isValidUTF8String holds exactly when the buffer cuts into table-sized
      sequences each accepted by isLegalUTF8 (for either rule). */
  lemma {:induction false} ValidIffSplitsIntoLegal(rule: Legality, buf: seq<byte>)
    ensures ValidWith(rule, buf) <==> SplitsIntoLegal(rule, buf)
    decreases |buf|
  {
    if |buf| > 0 {
      var n := 1 + TrailingBytesForUTF8(buf[0]);
      if n <= |buf| && Legal(rule, buf[..n]) {
        LegalDecodesToScalar(buf[..n]);
        ValidIffSplitsIntoLegal(rule, buf[n..]);
      }
    }
  }

  /** The gate's verdicts as the source's tests expect them: the empty
      buffer passes; an overlong NUL, overlong 3- and 4-byte forms, an
      encoded surrogate, a truncated Euro sign and a 5-byte form fail. */
  lemma ValidatorExamples()
    ensures IsValidUTF8String([])
    ensures !IsValidUTF8String([0xC0, 0x80])
    ensures !IsValidUTF8String([0xE0, 0x80, 0x80])
    ensures !IsValidUTF8String([0xF0, 0x80, 0x80, 0x80])
    ensures !IsValidUTF8String([0xED, 0xA0, 0x80])
    ensures !IsValidUTF8String([0xE2, 0x82])
    ensures IsValidUTF8String([0xE2, 0x82, 0xAC])
    ensures !IsValidUTF8String([0xF8, 0x88, 0x80, 0x80, 0x80])
    ensures !IsValidUTF8String([0xF4, 0x90, 0x80, 0x80])
  {
    TrailingBytesByRange(0xC0);
    TrailingBytesByRange(0xE0);
    TrailingBytesByRange(0xF0);
    TrailingBytesByRange(0xED);
    TrailingBytesByRange(0xE2);
    TrailingBytesByRange(0xF8);
    TrailingBytesByRange(0xF4);
    var euro: seq<byte> := [0xE2, 0x82, 0xAC];
    assert euro[..3] == euro;
    AccumulateDigits(euro);
    assert euro[3..] == [];
  }

  /** The as-written gate lets 0xED and 0xF4 be followed by a byte that is
      not a continuation byte: ED 41 80 and F4 41 80 80 pass, although
      neither is well-formed, and the corrected gate rejects both. */
  lemma AsWrittenAcceptsNonContinuation()
    ensures IsValidUTF8String([0xED, 0x41, 0x80])
    ensures !Rfc3629Char([0xED, 0x41, 0x80])
    ensures !IsValidUTF8StringCorrected([0xED, 0x41, 0x80])
    ensures IsValidUTF8String([0xF4, 0x41, 0x80, 0x80])
    ensures !IsValidUTF8StringCorrected([0xF4, 0x41, 0x80, 0x80])
  {
    TrailingBytesByRange(0xED);
    TrailingBytesByRange(0xF4);
    var a: seq<byte> := [0xED, 0x41, 0x80];
    var b: seq<byte> := [0xF4, 0x41, 0x80, 0x80];
    assert a[..3] == a && a[3..] == [];
    assert b[..4] == b && b[4..] == [];
    AccumulateDigits(a);
    AccumulateDigits(b);
  }

  // ---------------------------------------------------------------------------
  // The encoder
  // ---------------------------------------------------------------------------

  /** The length ConvertUTF32toUTF8 picks, the firstByteMark pattern on the
      leading byte, the continuation pattern on the others, and agreement
      with the length table the gate reads. */
  lemma EncodeScalarShape(ch: nat)
    requires ch <= MaxLegalUtf32
    ensures var e := EncodeScalar(ch);
      && |e| == (if ch < 0x80 then 1 else if ch < 0x800 then 2 else if ch < 0x10000 then 3 else 4)
      && (|e| == 1 ==> e[0] <= 0x7F)
      && (|e| == 2 ==> 0xC0 <= e[0] <= 0xDF)
      && (|e| == 3 ==> 0xE0 <= e[0] <= 0xEF)
      && (|e| == 4 ==> 0xF0 <= e[0] <= 0xF7)
      && (forall i :: 1 <= i < |e| ==> IsTail(e[i]))
      && |e| == 1 + TrailingBytesForUTF8(e[0])
  {
    TrailingBytesByRange(EncodeScalar(ch)[0]);
  }

  /** Encoding a scalar value yields a well-formed RFC 3629 character that
      decodes back to it. */
  lemma EncodeScalarRoundTrip(ch: nat)
    requires IsScalar(ch)
    ensures Rfc3629Char(EncodeScalar(ch))
    ensures DecodeSequence(EncodeScalar(ch)) == ch
  {
    if ch < 0x80 {
      AccumulateDigits(EncodeScalar(ch));
    } else if ch < 0x800 {
      EncodeTwoRoundTrip(ch);
    } else if ch < 0x10000 {
      EncodeThreeRoundTrip(ch);
    } else {
      EncodeFourRoundTrip(ch);
    }
  }

  lemma EncodeTwoRoundTrip(ch: nat)
    requires 0x80 <= ch < 0x800
    ensures Rfc3629Char(EncodeScalar(ch))
    ensures DecodeSequence(EncodeScalar(ch)) == ch
  {
    var e := EncodeScalar(ch);
    var a, b := 0xC0 + ch / 64, 0x80 + ch % 64;
    assert e == [a, b];
    AccumulateDigits(e);
    assert DecodeSequence(e) == a * 64 + b - 0x3080;
  }

  lemma EncodeThreeRoundTrip(ch: nat)
    requires 0x800 <= ch < 0x10000 && !IsSurrogate(ch)
    ensures Rfc3629Char(EncodeScalar(ch))
    ensures DecodeSequence(EncodeScalar(ch)) == ch
  {
    var e := EncodeScalar(ch);
    var a, b, c := 0xE0 + ch / 4096, 0x80 + (ch / 64) % 64, 0x80 + ch % 64;
    assert e == [a, b, c];
    AccumulateDigits(e);
    assert DecodeSequence(e) == a * 4096 + b * 64 + c - 0xE2080;
  }

  lemma EncodeFourRoundTrip(ch: nat)
    requires 0x10000 <= ch <= MaxLegalUtf32
    ensures Rfc3629Char(EncodeScalar(ch))
    ensures DecodeSequence(EncodeScalar(ch)) == ch
  {
    var e := EncodeScalar(ch);
    var a, b, c, d := 0xF0 + ch / 262144, 0x80 + (ch / 4096) % 64, 0x80 + (ch / 64) % 64, 0x80 + ch % 64;
    FourByteDigits(ch);
    assert e == [a, b, c, d];
    AccumulateDigits(e);
    assert DecodeSequence(e) == a * 262144 + b * 4096 + c * 64 + d - 0x3C82080;
  }

  /** Every well-formed RFC 3629 character is the encoding of the scalar
      value it decodes to. */
  lemma Rfc3629CharRoundTrip(s: seq<byte>)
    requires Rfc3629Char(s)
    ensures IsScalar(DecodeSequence(s))
    ensures EncodeScalar(DecodeSequence(s)) == s
  {
    if |s| == 1 {
      AccumulateDigits(s);
    } else if |s| == 2 {
      Rfc3629TwoRoundTrip(s);
    } else if |s| == 3 {
      Rfc3629ThreeRoundTrip(s);
    } else {
      Rfc3629FourRoundTrip(s);
    }
  }

  lemma Rfc3629TwoRoundTrip(s: seq<byte>)
    requires Rfc3629Char(s) && |s| == 2
    ensures IsScalar(DecodeSequence(s))
    ensures EncodeScalar(DecodeSequence(s)) == s
  {
    AccumulateDigits(s);
    assert DecodeSequence(s) == (s[0] as int - 0xC0) * 64 + (s[1] as int - 0x80);
  }

  lemma Rfc3629ThreeRoundTrip(s: seq<byte>)
    requires Rfc3629Char(s) && |s| == 3
    ensures IsScalar(DecodeSequence(s))
    ensures EncodeScalar(DecodeSequence(s)) == s
  {
    AccumulateDigits(s);
    DigitsOfThree(s[0] as int - 0xE0, s[1] as int - 0x80, s[2] as int - 0x80);
    assert DecodeSequence(s) == (s[0] as int - 0xE0) * 4096 + (s[1] as int - 0x80) * 64 + (s[2] as int - 0x80);
  }

  lemma Rfc3629FourRoundTrip(s: seq<byte>)
    requires Rfc3629Char(s) && |s| == 4
    ensures IsScalar(DecodeSequence(s))
    ensures EncodeScalar(DecodeSequence(s)) == s
  {
    AccumulateDigits(s);
    DigitsOfFour(s[0] as int - 0xF0, s[1] as int - 0x80, s[2] as int - 0x80, s[3] as int - 0x80);
    assert DecodeSequence(s) == (s[0] as int - 0xF0) * 262144 + (s[1] as int - 0x80) * 4096
                               + (s[2] as int - 0x80) * 64 + (s[3] as int - 0x80);
  }
}
