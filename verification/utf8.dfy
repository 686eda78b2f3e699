/**
 The UTF-8 codec of utf8v.c: the leading-byte length table, the
 well-formedness gate (`isLegalUTF8`, `isValidUTF8String`), and the scalar
 encoder (`ConvertUTF32toUTF8`, `UTF32toUTF8char`). Integers are unbounded
 here; the C `unsigned long` arithmetic never wraps on the paths modelled
 (every accumulated value is below 2^26), and the one subtraction that could
 wrap is modelled as a signed result that the range check then rejects.
 */
module Utf8 {
  import opened Buffers

  /** UNI_MAX_LEGAL_UTF32 */
  const MaxLegalUtf32: nat := 0x10FFFF
  /** UNI_REPLACEMENT_CHAR */
  const ReplacementChar: nat := 0xFFFD
  /** UNI_SUR_HIGH_START and UNI_SUR_LOW_END */
  const SurrogateStart: nat := 0xD800
  const SurrogateEnd: nat := 0xDFFF
  /** INVALID_UTF8: the sentinel for a slot that holds no part of a character. */
  const InvalidUtf8: byte := 0xFF

  predicate IsSurrogate(ch: int)
  {
    SurrogateStart <= ch <= SurrogateEnd
  }

  /** A Unicode scalar value: in range and not a UTF-16 surrogate. */
  predicate IsScalar(ch: int)
  {
    0 <= ch <= MaxLegalUtf32 && !IsSurrogate(ch)
  }

  // ---------------------------------------------------------------------------
  // Tables
  // ---------------------------------------------------------------------------

  /** trailingBytesForUTF8 as declared, entry by entry: row `k` holds the
      entries for the leading bytes 16 * k to 16 * k + 15. */
  function TrailingBytesRows(): (t: seq<seq<nat>>)
    ensures |t| == 16 && forall k :: 0 <= k < 16 ==> |t[k]| == 16
  {
    [
      [0, 0, 0, 0, 0, 0, 0, 0, 0, 0, 0, 0, 0, 0, 0, 0],
      [0, 0, 0, 0, 0, 0, 0, 0, 0, 0, 0, 0, 0, 0, 0, 0],
      [0, 0, 0, 0, 0, 0, 0, 0, 0, 0, 0, 0, 0, 0, 0, 0],
      [0, 0, 0, 0, 0, 0, 0, 0, 0, 0, 0, 0, 0, 0, 0, 0],
      [0, 0, 0, 0, 0, 0, 0, 0, 0, 0, 0, 0, 0, 0, 0, 0],
      [0, 0, 0, 0, 0, 0, 0, 0, 0, 0, 0, 0, 0, 0, 0, 0],
      [0, 0, 0, 0, 0, 0, 0, 0, 0, 0, 0, 0, 0, 0, 0, 0],
      [0, 0, 0, 0, 0, 0, 0, 0, 0, 0, 0, 0, 0, 0, 0, 0],
      [0, 0, 0, 0, 0, 0, 0, 0, 0, 0, 0, 0, 0, 0, 0, 0],
      [0, 0, 0, 0, 0, 0, 0, 0, 0, 0, 0, 0, 0, 0, 0, 0],
      [0, 0, 0, 0, 0, 0, 0, 0, 0, 0, 0, 0, 0, 0, 0, 0],
      [0, 0, 0, 0, 0, 0, 0, 0, 0, 0, 0, 0, 0, 0, 0, 0],
      [1, 1, 1, 1, 1, 1, 1, 1, 1, 1, 1, 1, 1, 1, 1, 1],
      [1, 1, 1, 1, 1, 1, 1, 1, 1, 1, 1, 1, 1, 1, 1, 1],
      [2, 2, 2, 2, 2, 2, 2, 2, 2, 2, 2, 2, 2, 2, 2, 2],
      [3, 3, 3, 3, 3, 3, 3, 3, 4, 4, 4, 4, 5, 5, 5, 5]
    ]
  }

  /** trailingBytesForUTF8 as the model reads it, by the runs its rows are
      made of: 0x00..0xBF -> 0, 0xC0..0xDF -> 1, 0xE0..0xEF -> 2,
      0xF0..0xF7 -> 3, 0xF8..0xFB -> 4, 0xFC..0xFF -> 5. Utf8Lemmas checks
      these runs against TrailingBytesRows entry by entry. */
  function TrailingBytesTable(): (t: seq<nat>)
    ensures |t| == 256
  {
    seq(192, _ => 0) + seq(32, _ => 1) + seq(16, _ => 2) + seq(8, _ => 3) + seq(4, _ => 4) + seq(4, _ => 5)
  }

  /** How many bytes are supposed to follow a leading byte. */
  function TrailingBytesForUTF8(lead: byte): nat
  {
    TrailingBytesTable()[lead]
  }

  /** offsetsFromUTF8: what the accumulated value of an n-byte sequence
      overshoots by, indexed by the number of trailing bytes. */
  const OffsetsFromUTF8: seq<nat> :=
    [0x00000000, 0x00003080, 0x000E2080, 0x03C82080, 0xFA082080, 0x82082080]

  /** firstByteMark: the pattern OR-ed into the leading byte, indexed by length. */
  const FirstByteMark: seq<byte> := [0x00, 0x00, 0xC0, 0xE0, 0xF0, 0xF8, 0xFC]

  // ---------------------------------------------------------------------------
  // The well-formedness gate
  // ---------------------------------------------------------------------------

  /** The inner switch of isLegalUTF8: the range allowed for the first
      trailing byte `a`, depending on the leading byte. */
  predicate FirstTrailAllowed(lead: byte, a: byte)
  {
    if lead == 0xE0 then a >= 0xA0
    else if lead == 0xED then a <= 0x9F
    else if lead == 0xF0 then a >= 0x90
    else if lead == 0xF4 then a <= 0x8F
    else a >= 0x80
  }

  /** isLegalUTF8(source, |s|), as written: lengths other than 1..4 fall to
      `default`; the third and fourth bytes must lie in 0x80..0xBF; the second
      byte is only checked against 0xBF before the inner switch, which for
      the leading bytes 0xED and 0xF4 checks an upper bound alone. */
  predicate IsLegalUTF8(s: seq<byte>)
  {
    && 1 <= |s| <= 4
    && (|s| >= 4 ==> 0x80 <= s[3] <= 0xBF)
    && (|s| >= 3 ==> 0x80 <= s[2] <= 0xBF)
    && (|s| >= 2 ==> s[1] <= 0xBF && FirstTrailAllowed(s[0], s[1]))
    && !(0x80 <= s[0] < 0xC2)
    && s[0] <= 0xF4
  }

  /** isLegalUTF8 with the case-2 test reading `a < 0x80 || a > 0xBF`, so that
      the second byte is always a continuation byte. */
  predicate IsLegalUTF8Corrected(s: seq<byte>)
  {
    IsLegalUTF8(s) && (|s| >= 2 ==> s[1] >= 0x80)
  }

  /** Which legality test the validator applies. */
  datatype Legality = AsWritten | Corrected

  predicate Legal(rule: Legality, s: seq<byte>)
  {
    match rule
    case AsWritten => IsLegalUTF8(s)
    case Corrected => IsLegalUTF8Corrected(s)
  }

  /** The value the fall-through chain `ch += *source++; ch <<= 6;` builds:
      the bytes read as digits in base 64. */
  function Accumulate(s: seq<byte>): nat
  {
    if |s| == 0 then 0 else Accumulate(s[..|s| - 1]) * 64 + s[|s| - 1]
  }

  /** `ch - offsetsFromUTF8[extraBytesToRead]`. The C subtraction is unsigned;
      a negative value here stands for the wrapped-around value, which is
      above UNI_MAX_LEGAL_UTF32 for every width `unsigned long` can have. */
  function DecodeSequence(s: seq<byte>): int
    requires 1 <= |s| <= 4
  {
    Accumulate(s) - OffsetsFromUTF8[|s| - 1]
  }

  /** The loop of isValidUTF8String over the bytes not yet consumed. */
  predicate ValidWith(rule: Legality, buf: seq<byte>)
    decreases |buf|
  {
    if |buf| == 0 then true
    else
      var extra := TrailingBytesForUTF8(buf[0]);
      if extra >= |buf| then false
      else if !Legal(rule, buf[..extra + 1]) then false
      else
        var ch := DecodeSequence(buf[..extra + 1]);
        if ch < 0 || ch > MaxLegalUtf32 || IsSurrogate(ch) then false
        else ValidWith(rule, buf[extra + 1..])
  }

  /** isValidUTF8String, as written. */
  predicate IsValidUTF8String(buf: seq<byte>)
  {
    ValidWith(AsWritten, buf)
  }

  /** isValidUTF8String with the corrected isLegalUTF8. */
  predicate IsValidUTF8StringCorrected(buf: seq<byte>)
  {
    ValidWith(Corrected, buf)
  }

  /** The loop of isValidUTF8String. */
  method ValidateUTF8(buf: seq<byte>) returns (ok: bool)
    ensures ok <==> IsValidUTF8String(buf)
  {
    var pos := 0;
    while pos < |buf|
      invariant 0 <= pos <= |buf|
      invariant IsValidUTF8String(buf) == ValidWith(AsWritten, buf[pos..])
      decreases |buf| - pos
    {
      var extra := TrailingBytesForUTF8(buf[pos]);
      if pos + extra >= |buf| {
        return false;
      }
      var sequence := buf[pos..pos + extra + 1];
      assert sequence == buf[pos..][..extra + 1];
      if !IsLegalUTF8(sequence) {
        return false;
      }
      var ch := DecodeSequence(sequence);
      if ch < 0 || ch > MaxLegalUtf32 || IsSurrogate(ch) {
        return false;
      }
      assert buf[pos..][extra + 1..] == buf[pos + extra + 1..];
      pos := pos + extra + 1;
    }
    return true;
  }

  // ---------------------------------------------------------------------------
  // The scalar encoder
  // ---------------------------------------------------------------------------

  /** `(ch | byteMark) & byteMask`: the low six bits of `ch` under the
      continuation pattern 10xxxxxx. */
  function ContinuationByte(ch: nat): byte
  {
    0x80 + ch % 64
  }

  /** The bytes the fall-through switch of ConvertUTF32toUTF8 stores for a
      value it has already sized: bytesToWrite is 1, 2, 3 or 4 by the
      thresholds 0x80, 0x800, 0x10000; trailing bytes are written last-first,
      shifting `ch` right by six each time; the leading byte is what is left
      OR-ed with firstByteMark[bytesToWrite] (the bits never overlap, so the
      OR is an addition). */
  function EncodeScalar(ch: nat): seq<byte>
    requires ch <= MaxLegalUtf32
  {
    if ch < 0x80 then [FirstByteMark[1] + ch]
    else if ch < 0x800 then [FirstByteMark[2] + ch / 64, ContinuationByte(ch)]
    else if ch < 0x10000 then
      [FirstByteMark[3] + ch / 4096, ContinuationByte(ch / 64), ContinuationByte(ch)]
    else
      [FirstByteMark[4] + ch / 262144, ContinuationByte(ch / 4096), ContinuationByte(ch / 64), ContinuationByte(ch)]
  }

  /** The value actually written: anything above UNI_MAX_LEGAL_UTF32 becomes
      UNI_REPLACEMENT_CHAR. */
  function Substituted(ch: nat): (r: nat)
    ensures r <= MaxLegalUtf32
  {
    if ch <= MaxLegalUtf32 then ch else ReplacementChar
  }

  /** The bytes of a whole UTF-32 source after substitution, back to back. */
  function EncodeSubstituted(source: seq<nat>): seq<byte>
  {
    if |source| == 0 then [] else EncodeScalar(Substituted(source[0])) + EncodeSubstituted(source[1..])
  }

  datatype ConversionResult = ConversionOK | SourceExhausted | TargetExhausted | SourceIllegal

  datatype ConversionFlags = StrictConversion | LenientConversion

  /** What ConvertUTF32toUTF8 leaves behind: its result code, how far
      `*sourceStart` advanced, and the bytes stored from `*targetStart` on. */
  datatype Conversion = Conversion(result: ConversionResult, consumed: nat, target: seq<byte>)

  /** Some element of `source` is above UNI_MAX_LEGAL_UTF32. */
  predicate HasOutOfRange(source: seq<nat>)
  {
    exists i :: 0 <= i < |source| && source[i] > MaxLegalUtf32
  }

  /** No element of `source` is a UTF-16 surrogate. */
  predicate NoSurrogates(source: seq<nat>)
  {
    forall i :: 0 <= i < |source| ==> !IsSurrogate(source[i])
  }

  /** The conversion loop, from the first unread source element on, with
      `room` target bytes left and `result` the code accumulated so far. */
  function ConvertFrom(source: seq<nat>, room: nat, flags: ConversionFlags, result: ConversionResult): (c: Conversion)
    requires result == ConversionOK || result == SourceIllegal
    ensures c.consumed <= |source|
    ensures c.target == EncodeSubstituted(source[..c.consumed])
    ensures |c.target| <= room
    ensures flags == StrictConversion ==> NoSurrogates(source[..c.consumed])
    ensures c.consumed == |source| ==>
      c.result == (if result == SourceIllegal || HasOutOfRange(source) then SourceIllegal else ConversionOK)
    ensures c.consumed < |source| ==>
      || (flags == StrictConversion && IsSurrogate(source[c.consumed]) && c.result == SourceIllegal)
      || (c.result == TargetExhausted
          && |c.target| + |EncodeScalar(Substituted(source[c.consumed]))| > room)
    decreases |source|
  {
    if |source| == 0 then Conversion(result, 0, [])
    else
      var ch := source[0];
      if flags == StrictConversion && IsSurrogate(ch) then
        Conversion(SourceIllegal, 0, [])
      else
        var bytes := EncodeScalar(Substituted(ch));
        var result' := if ch > MaxLegalUtf32 then SourceIllegal else result;
        if |bytes| > room then
          Conversion(TargetExhausted, 0, [])
        else
          var rest := ConvertFrom(source[1..], room - |bytes|, flags, result');
          OutOfRangeSplit(source);
          ConsumedCons(source, rest.consumed);
          Conversion(rest.result, rest.consumed + 1, bytes + rest.target)
  }

  lemma OutOfRangeSplit(source: seq<nat>)
    requires |source| > 0
    ensures HasOutOfRange(source) <==> source[0] > MaxLegalUtf32 || HasOutOfRange(source[1..])
  {
    if HasOutOfRange(source) {
      var i :| 0 <= i < |source| && source[i] > MaxLegalUtf32;
      if i > 0 { assert source[1..][i - 1] == source[i]; }
    }
    if HasOutOfRange(source[1..]) {
      var i :| 0 <= i < |source[1..]| && source[1..][i] > MaxLegalUtf32;
      assert source[i + 1] == source[1..][i];
    }
  }

  /** Consuming the first element and then `k` more. */
  lemma ConsumedCons(source: seq<nat>, k: nat)
    requires k < |source|
    ensures EncodeSubstituted(source[..k + 1])
         == EncodeScalar(Substituted(source[0])) + EncodeSubstituted(source[1..][..k])
    ensures NoSurrogates(source[..k + 1]) <==> !IsSurrogate(source[0]) && NoSurrogates(source[1..][..k])
  {
    var s := source[..k + 1];
    assert s[1..] == source[1..][..k];
    assert s == [source[0]] + s[1..];
    if NoSurrogates(s) {
      forall i | 0 <= i < k ensures !IsSurrogate(source[1..][..k][i]) {
        assert s[i + 1] == source[1..][..k][i];
      }
    }
  }

  /** ConvertUTF32toUTF8 over a UTF-32 source with `room` bytes of target. */
  function ConvertUTF32toUTF8(source: seq<nat>, room: nat, flags: ConversionFlags): (c: Conversion)
    ensures c.consumed <= |source|
    ensures c.target == EncodeSubstituted(source[..c.consumed])
    ensures |c.target| <= room
    ensures c.result != SourceExhausted
    ensures flags == StrictConversion ==> NoSurrogates(source[..c.consumed])
    ensures c.consumed == |source| ==>
      c.result == (if HasOutOfRange(source) then SourceIllegal else ConversionOK)
    ensures c.consumed < |source| ==>
      || (flags == StrictConversion && IsSurrogate(source[c.consumed]) && c.result == SourceIllegal)
      || (c.result == TargetExhausted
          && |c.target| + |EncodeScalar(Substituted(source[c.consumed]))| > room)
  {
    ConvertFrom(source, room, flags, ConversionOK)
  }

  /** UTF32toUTF8char's 4-byte buffer and its return value. */
  datatype CharBytes = CharBytes(count: nat, slots: seq<byte>)

  /** UTF32toUTF8char: a lenient conversion of one value into 4 bytes; on
      success the unused slots are set to INVALID_UTF8, otherwise all four
      are, and the count is 0. */
  function UTF32toUTF8char(ch: nat): (r: CharBytes)
    ensures |r.slots| == 4 && r.count <= 4
    ensures forall i :: r.count <= i < 4 ==> r.slots[i] == InvalidUtf8
    ensures ch <= MaxLegalUtf32 ==> r.count == |EncodeScalar(ch)| && r.slots[..r.count] == EncodeScalar(ch)
    ensures ch > MaxLegalUtf32 ==> r.count == 0
  {
    var c := ConvertUTF32toUTF8([ch], 4, LenientConversion);
    if (c.result == ConversionOK || c.result == TargetExhausted) && |c.target| != 0 then
      CharBytes(|c.target|, seq(4, i requires 0 <= i < 4 => if i < |c.target| then c.target[i] else InvalidUtf8))
    else
      CharBytes(0, [InvalidUtf8, InvalidUtf8, InvalidUtf8, InvalidUtf8])
  }
}
