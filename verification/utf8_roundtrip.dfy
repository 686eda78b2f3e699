/**
 Whole-buffer properties of the UTF-8 codec: the corrected gate accepts
 exactly the concatenated encodings of scalar values, the gate as written
 accepts all of those too, and UTF32toUTF8char's output passes the gate and
 decodes back to its input.
 */
module Utf8RoundTrip {
  import opened Buffers
  import opened Utf8
  import opened Utf8Lemmas

  /** The scalar values isValidUTF8String decodes, in order: the `ch` of
      each turn of its loop. */
  function DecodeAll(buf: seq<byte>): seq<nat>
    requires IsValidUTF8String(buf)
    decreases |buf|
  {
    if |buf| == 0 then []
    else
      var n := 1 + TrailingBytesForUTF8(buf[0]);
      [DecodeSequence(buf[..n]) as nat] + DecodeAll(buf[n..])
  }

  /** Whatever the corrected gate accepts, the gate as written accepts. */
  lemma {:induction false} CorrectedImpliesAsWritten(buf: seq<byte>)
    requires IsValidUTF8StringCorrected(buf)
    ensures IsValidUTF8String(buf)
    decreases |buf|
  {
    if |buf| > 0 {
      var n := 1 + TrailingBytesForUTF8(buf[0]);
      CorrectedImpliesAsWritten(buf[n..]);
    }
  }

  /** The encoding of a scalar value heads a buffer: the gate reads exactly
      those bytes as its first sequence. */
  lemma EncodedHead(ch: nat, rest: seq<byte>)
    requires IsScalar(ch)
    ensures var e := EncodeScalar(ch); var buf := e + rest;
      && |buf| > 0
      && 1 + TrailingBytesForUTF8(buf[0]) == |e|
      && buf[..|e|] == e && buf[|e|..] == rest
      && IsLegalUTF8Corrected(e) && IsLegalUTF8(e)
      && DecodeSequence(e) == ch
  {
    var e := EncodeScalar(ch);
    EncodeScalarShape(ch);
    EncodeScalarRoundTrip(ch);
    Rfc3629CharIsLegal(e);
    assert (e + rest)[..|e|] == e;
    assert (e + rest)[|e|..] == rest;
  }

  /** Concatenated encodings of scalar values pass both gates and decode
      back to the same values. */
  lemma {:induction false} EncodingsAreValid(vs: seq<nat>)
    requires AllScalars(vs)
    ensures IsValidUTF8StringCorrected(EncodeSubstituted(vs))
    ensures IsValidUTF8String(EncodeSubstituted(vs))
    ensures DecodeAll(EncodeSubstituted(vs)) == vs
    decreases |vs|
  {
    if |vs| > 0 {
      var rest := EncodeSubstituted(vs[1..]);
      assert AllScalars(vs[1..]) by {
        forall i | 0 <= i < |vs[1..]| ensures IsScalar(vs[1..][i]) {
          assert vs[1..][i] == vs[i + 1];
        }
      }
      EncodingsAreValid(vs[1..]);
      assert IsScalar(vs[0]);
      assert EncodeSubstituted(vs) == EncodeScalar(vs[0]) + rest;
      EncodedThenValid(vs[0], rest);
      assert vs == [vs[0]] + vs[1..];
    }
  }

  /** A scalar's encoding in front of a buffer both gates accept. */
  lemma EncodedThenValid(ch: nat, rest: seq<byte>)
    requires IsScalar(ch)
    requires IsValidUTF8StringCorrected(rest) && IsValidUTF8String(rest)
    ensures var buf := EncodeScalar(ch) + rest;
      && IsValidUTF8StringCorrected(buf)
      && IsValidUTF8String(buf)
      && DecodeAll(buf) == [ch] + DecodeAll(rest)
  {
    EncodedHead(ch, rest);
  }

  /** Whatever the corrected gate accepts is the concatenated encoding of the
      scalar values it decodes to. */
  lemma {:induction false} ValidCorrectedReencodes(buf: seq<byte>)
    requires IsValidUTF8StringCorrected(buf)
    ensures IsValidUTF8String(buf)
    ensures AllScalars(DecodeAll(buf))
    ensures EncodeSubstituted(DecodeAll(buf)) == buf
    decreases |buf|
  {
    CorrectedImpliesAsWritten(buf);
    if |buf| > 0 {
      var n := 1 + TrailingBytesForUTF8(buf[0]);
      var s := buf[..n];
      CorrectedLegalIffRfc3629(s);
      Rfc3629CharRoundTrip(s);
      ValidCorrectedReencodes(buf[n..]);
      var vs := DecodeAll(buf);
      assert vs[1..] == DecodeAll(buf[n..]);
      assert buf == s + buf[n..];
    }
  }

  /** The corrected gate accepts a buffer exactly when it is the
      concatenated encoding of some scalar values. */
  lemma ValidCorrectedIffEncoding(buf: seq<byte>)
    ensures IsValidUTF8StringCorrected(buf) <==>
      exists vs :: AllScalars(vs) && EncodeSubstituted(vs) == buf
  {
    if IsValidUTF8StringCorrected(buf) {
      ValidCorrectedReencodes(buf);
    }
    if exists vs :: AllScalars(vs) && EncodeSubstituted(vs) == buf {
      var vs :| AllScalars(vs) && EncodeSubstituted(vs) == buf;
      EncodingsAreValid(vs);
    }
  }

  /** UTF32toUTF8char on a scalar value: its first `count` bytes pass the
      gate and decode back to the value. */
  lemma UTF32toUTF8charRoundTrip(ch: nat)
    requires IsScalar(ch)
    ensures var r := UTF32toUTF8char(ch);
      && 1 <= r.count <= 4
      && IsValidUTF8String(r.slots[..r.count])
      && DecodeAll(r.slots[..r.count]) == [ch]
  {
    var r := UTF32toUTF8char(ch);
    EncodeScalarShape(ch);
    assert [ch][1..] == [];
    assert Substituted(ch) == ch;
    assert EncodeSubstituted([ch]) == EncodeScalar(ch) + EncodeSubstituted([]);
    assert EncodeSubstituted([ch]) == EncodeScalar(ch);
    assert r.slots[..r.count] == EncodeScalar(ch);
    assert AllScalars([ch]);
    EncodingsAreValid([ch]);
  }

  /** In lenient mode a surrogate is still encoded, as three bytes, and the
      gate rejects them. */
  lemma UTF32toUTF8charSurrogate(ch: nat)
    requires IsSurrogate(ch)
    ensures var r := UTF32toUTF8char(ch);
      && r.count == 3
      && r.slots[0] == 0xED
      && !IsValidUTF8String(r.slots[..r.count])
  {
    var r := UTF32toUTF8char(ch);
    var e := EncodeScalar(ch);
    EncodeScalarShape(ch);
    assert e[0] == 0xED && e[1] >= 0xA0;
    assert r.slots[..r.count] == e;
    assert e[..3] == e;
  }

  /** A value above 0x10FFFF: the conversion stores the replacement
      character EF BF BD and reports sourceIllegal, which UTF32toUTF8char
      does not accept, so it answers 0 with all four slots INVALID_UTF8. */
  lemma OutOfRangeConversion(ch: nat, flags: ConversionFlags)
    requires ch > MaxLegalUtf32
    ensures ConvertUTF32toUTF8([ch], 4, flags) == Conversion(SourceIllegal, 1, [0xEF, 0xBF, 0xBD])
    ensures UTF32toUTF8char(ch) == CharBytes(0, [InvalidUtf8, InvalidUtf8, InvalidUtf8, InvalidUtf8])
  {
    assert HasOutOfRange([ch]) by { assert [ch][0] > MaxLegalUtf32; }
    var c := ConvertUTF32toUTF8([ch], 4, flags);
    assert [ch][..1] == [ch];
    assert EncodeSubstituted([ch]) == EncodeScalar(ReplacementChar) + EncodeSubstituted([]);
  }

  /** Strict mode stops at a surrogate: sourceIllegal, nothing consumed from
      that point, nothing stored for it. */
  lemma StrictStopsAtSurrogate(source: seq<nat>, room: nat)
    requires |source| > 0 && IsSurrogate(source[0])
    ensures ConvertUTF32toUTF8(source, room, StrictConversion) == Conversion(SourceIllegal, 0, [])
  {
  }
}
