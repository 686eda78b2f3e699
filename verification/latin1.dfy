/**
 latin1toUTF8 of utf8v.c: every Latin-1 byte is the code point of the same
 value, written as one or two UTF-8 bytes into a caller buffer of fixed
 capacity. The returned count is the length the whole conversion needs,
 whatever the capacity; the stores stop at the first character that does
 not fit, and a NUL follows only when there is room for it.
 */
module Latin1 {
  import opened Buffers
  import opened Utf8
  import opened Utf8Lemmas
  import opened Utf8RoundTrip

  /** The UTF-8 bytes of one Latin-1 byte: itself below 0x80, otherwise
      `(b >> 6) | 0xC0` then `(b & 0x3F) | 0x80`. */
  function Latin1Char(b: byte): seq<byte>
  {
    if b < 0x80 then [b] else [0xC0 + b / 64, 0x80 + b % 64]
  }

  /** The full UTF-8 upgrade of a Latin-1 buffer, however long. */
  function Latin1Encoding(src: seq<byte>): seq<byte>
  {
    if |src| == 0 then [] else Latin1Encoding(src[..|src| - 1]) + Latin1Char(src[|src| - 1])
  }

  /** The number of bytes at or above 0x80. */
  function NonAsciiCount(src: seq<byte>): nat
  {
    if |src| == 0 then 0 else (if src[0] >= 0x80 then 1 else 0) + NonAsciiCount(src[1..])
  }

  predicate IsAscii(src: seq<byte>)
  {
    forall i :: 0 <= i < |src| ==> src[i] < 0x80
  }

  /** The code points a Latin-1 buffer stands for. */
  function CodePoints(src: seq<byte>): (cps: seq<nat>)
    ensures |cps| == |src|
    ensures forall i :: 0 <= i < |src| ==> cps[i] == src[i]
  {
    seq(|src|, i requires 0 <= i < |src| => src[i] as nat)
  }

  // ---------------------------------------------------------------------------
  // Prefixes of the encoding
  // ---------------------------------------------------------------------------

  lemma NonAsciiCountSnoc(src: seq<byte>, b: byte)
    ensures NonAsciiCount(src + [b]) == NonAsciiCount(src) + (if b >= 0x80 then 1 else 0)
  {
    if |src| > 0 {
      assert (src + [b])[1..] == src[1..] + [b];
      NonAsciiCountSnoc(src[1..], b);
    }
  }

  /** The upgrade takes one byte per source byte plus one per byte at or
      above 0x80. */
  lemma {:induction false} EncodingLength(src: seq<byte>)
    ensures |Latin1Encoding(src)| == |src| + NonAsciiCount(src)
  {
    if |src| > 0 {
      var init := src[..|src| - 1];
      EncodingLength(init);
      assert src == init + [src[|src| - 1]];
      NonAsciiCountSnoc(init, src[|src| - 1]);
    }
  }

  lemma EncodingStep(src: seq<byte>, i: nat)
    requires i < |src|
    ensures Latin1Encoding(src[..i + 1]) == Latin1Encoding(src[..i]) + Latin1Char(src[i])
  {
    assert src[..i + 1][..i] == src[..i];
  }

  /** The upgrade of a prefix is a prefix of the upgrade. */
  lemma {:induction false} EncodingPrefix(src: seq<byte>, i: nat, j: nat)
    requires i <= j <= |src|
    ensures |Latin1Encoding(src[..i])| <= |Latin1Encoding(src[..j])|
    ensures Latin1Encoding(src[..i]) == Latin1Encoding(src[..j])[..|Latin1Encoding(src[..i])|]
    decreases j - i
  {
    if i < j {
      EncodingPrefix(src, i, j - 1);
      EncodingStep(src, j - 1);
    }
  }

  /** How many source bytes are upgraded before the buffer runs out: the
      longest prefix whose upgrade fits in `cap` bytes. */
  function FitCount(src: seq<byte>, cap: nat): (k: nat)
    ensures k <= |src|
    ensures |Latin1Encoding(src[..k])| <= cap
    ensures k < |src| ==> |Latin1Encoding(src[..k + 1])| > cap
    decreases |src|
  {
    if |Latin1Encoding(src)| <= cap then
      assert src[..|src|] == src;
      |src|
    else
      var init := src[..|src| - 1];
      var k := FitCount(init, cap);
      assert init[..k] == src[..k];
      assert k < |init| ==> init[..k + 1] == src[..k + 1];
      assert k == |init| ==> src[..k + 1] == src;
      k
  }

  // ---------------------------------------------------------------------------
  // The conversion
  // ---------------------------------------------------------------------------

  /** The returned count and the caller's buffer after latin1toUTF8. */
  datatype Upgrade = Upgrade(needed: nat, buf: seq<Slot<byte>>)

  /** A buffer of `buflen` cells whose first `|done|` cells hold `done`. */
  function Fill(done: seq<byte>, buflen: nat): (buf: seq<Slot<byte>>)
    ensures |buf| == buflen
    ensures |done| <= buflen ==> Holds(buf, done)
    ensures forall j :: |done| <= j < buflen ==> buf[j] == Unwritten
  {
    seq(buflen, j requires 0 <= j < buflen => if j < |done| then Written(done[j]) else Unwritten)
  }

  /** latin1toUTF8(src, |src|, buf, buflen), stated by what ends up where:
      the upgrade of the longest fitting prefix, then a NUL at the returned
      index if that index lies inside the buffer, and nothing else. */
  function Latin1ToUTF8(src: seq<byte>, buflen: nat): (r: Upgrade)
    ensures r.needed == |src| + NonAsciiCount(src)
    ensures |r.buf| == buflen
  {
    var enc := Latin1Encoding(src);
    var stored := Fill(Latin1Encoding(src[..FitCount(src, buflen)]), buflen);
    EncodingLength(src);
    Upgrade(|enc|, if |enc| < buflen then stored[|enc| := Written(0)] else stored)
  }

  /** What one turn of the loop does to the buffer for the source byte `b`
      when `ibuf` bytes have been counted so far: a character that does not
      fit is skipped. */
  function Turn(buf: seq<Slot<byte>>, ibuf: nat, b: byte): (r: seq<Slot<byte>>)
    ensures |r| == |buf|
  {
    if b >= 0x80 then
      if ibuf + 2 - 1 >= |buf| then buf
      else buf[ibuf := Written(0xC0 + b / 64)][ibuf + 1 := Written(0x80 + b % 64)]
    else
      if ibuf + 1 - 1 >= |buf| then buf
      else buf[ibuf := Written(b)]
  }

  /** The buffer once the loop has handled the first `i` source bytes. */
  function Turns(src: seq<byte>, buflen: nat, i: nat): (buf: seq<Slot<byte>>)
    requires i <= |src|
    ensures |buf| == buflen
  {
    if i == 0 then Blank(buflen)
    else Turn(Turns(src, buflen, i - 1), |Latin1Encoding(src[..i - 1])|, src[i - 1])
  }

  /** A turn whose character fits stores it after what is already there. */
  lemma TurnAppends(done: seq<byte>, b: byte, buflen: nat)
    requires |done| + |Latin1Char(b)| <= buflen
    ensures Turn(Fill(done, buflen), |done|, b) == Fill(done + Latin1Char(b), buflen)
  {
  }

  /** A turn whose character does not fit leaves the buffer alone. */
  lemma TurnSkips(buf: seq<Slot<byte>>, ibuf: nat, b: byte)
    requires ibuf + |Latin1Char(b)| > |buf|
    ensures Turn(buf, ibuf, b) == buf
  {
  }

  /** Before FitCount every character fits; from FitCount on none does. */
  lemma FitsBeforeFitCount(src: seq<byte>, buflen: nat, j: nat)
    requires j < |src|
    ensures var k := FitCount(src, buflen);
      var n := |Latin1Encoding(src[..j])| + |Latin1Char(src[j])|;
      && |Latin1Encoding(src[..j + 1])| == n
      && (j < k ==> n <= buflen)
      && (j >= k ==> n > buflen)
  {
    var k := FitCount(src, buflen);
    EncodingStep(src, j);
    if j < k {
      EncodingPrefix(src, j + 1, k);
    } else if j > k {
      EncodingPrefix(src, k + 1, j);
    }
  }

  /** After `i` turns the buffer holds the upgrade of the first `i` bytes,
      or of the first FitCount bytes once a character has not fitted: the
      skipped character is never followed by one that fits. */
  lemma {:induction false} TurnsStoreFittingPrefix(src: seq<byte>, buflen: nat, i: nat)
    requires i <= |src|
    ensures var k := FitCount(src, buflen);
      Turns(src, buflen, i) == Fill(Latin1Encoding(src[..if i <= k then i else k]), buflen)
  {
    var k := FitCount(src, buflen);
    if i > 0 {
      var j := i - 1;
      TurnsStoreFittingPrefix(src, buflen, j);
      var done := Latin1Encoding(src[..j]);
      var before := Turns(src, buflen, j);
      assert Turns(src, buflen, i) == Turn(before, |done|, src[j]);
      FitsBeforeFitCount(src, buflen, j);
      if j < k {
        assert before == Fill(done, buflen);
        TurnAppends(done, src[j], buflen);
        EncodingStep(src, j);
        assert Turns(src, buflen, i) == Fill(Latin1Encoding(src[..i]), buflen);
      } else {
        TurnSkips(before, |done|, src[j]);
        assert Turns(src, buflen, i) == before == Fill(Latin1Encoding(src[..k]), buflen);
      }
    }
  }

  /** The loop of latin1toUTF8, store by store. */
  method Latin1ToUTF8Loop(src: seq<byte>, buflen: nat) returns (needed: nat, buf: seq<Slot<byte>>)
    ensures Upgrade(needed, buf) == Latin1ToUTF8(src, buflen)
  {
    buf := Blank(buflen);
    var isrc, ibuf := 0, 0;
    while isrc < |src|
      invariant isrc <= |src|
      invariant ibuf == |Latin1Encoding(src[..isrc])|
      invariant buf == Turns(src, buflen, isrc)
      decreases |src| - isrc
    {
      EncodingStep(src, isrc);
      var b := src[isrc];
      if b >= 0x80 {
        if ibuf + 2 - 1 >= buflen {
          ibuf := ibuf + 2;
        } else {
          buf := buf[ibuf := Written(0xC0 + b / 64)];
          ibuf := ibuf + 1;
          buf := buf[ibuf := Written(0x80 + b % 64)];
          ibuf := ibuf + 1;
        }
      } else {
        if ibuf + 1 - 1 >= buflen {
          ibuf := ibuf + 1;
        } else {
          buf := buf[ibuf := Written(b)];
          ibuf := ibuf + 1;
        }
      }
      isrc := isrc + 1;
    }
    FinalBuffer(src, buflen);
    if ibuf < buflen {
      buf := buf[ibuf := Written(0)];
    }
    needed := ibuf;
  }

  /** After the loop every source byte has been handled, which is what
      Latin1ToUTF8 stores before its NUL. */
  lemma FinalBuffer(src: seq<byte>, buflen: nat)
    ensures src[..|src|] == src
    ensures var r := Latin1ToUTF8(src, buflen);
      var stored := Turns(src, buflen, |src|);
      && r.needed == |Latin1Encoding(src)|
      && r.buf == (if r.needed < buflen then stored[r.needed := Written(0)] else stored)
  {
    assert src[..|src|] == src;
    EncodingLength(src);
    TurnsStoreFittingPrefix(src, buflen, |src|);
  }

  // ---------------------------------------------------------------------------
  // Properties
  // ---------------------------------------------------------------------------

  /** The count exceeds the capacity exactly when the upgrade did not fit,
      and the NUL is stored exactly when the count is below the capacity. */
  lemma Latin1FitsIff(src: seq<byte>, buflen: nat)
    ensures var r := Latin1ToUTF8(src, buflen);
      && (r.needed <= buflen <==> Holds(r.buf, Latin1Encoding(src)))
      && (r.needed < buflen ==> r.buf[r.needed] == Written(0))
      && (forall j :: 0 <= j < buflen && j >= r.needed ==> (r.buf[j].Written? <==> j == r.needed))
  {
    var r := Latin1ToUTF8(src, buflen);
    var enc := Latin1Encoding(src);
    EncodingLength(src);
    assert src[..|src|] == src;
    if r.needed <= buflen {
      assert FitCount(src, buflen) == |src|;
    }
  }

  /** Only the upgrade of the first FitCount bytes is stored: whole
      characters, never the first half of a pair without its second. */
  lemma Latin1StoresWholeCharacters(src: seq<byte>, buflen: nat)
    ensures var r := Latin1ToUTF8(src, buflen);
      var done := Latin1Encoding(src[..FitCount(src, buflen)]);
      && Holds(r.buf, done)
      && (forall j :: |done| <= j < buflen && j != r.needed ==> r.buf[j] == Unwritten)
      && (r.needed > buflen ==> buflen - 1 <= |done| <= buflen)
  {
    var k := FitCount(src, buflen);
    EncodingPrefix(src, k, |src|);
    assert src[..|src|] == src;
    EncodingLength(src);
    if k < |src| {
      EncodingStep(src, k);
    }
  }

  /** In `e`, the byte after a leading byte of a pair is a continuation byte. */
  predicate PairsWhole(e: seq<byte>)
  {
    forall j :: 0 <= j < |e| && e[j] >= 0xC0 ==> j + 1 < |e| && IsTail(e[j + 1])
  }

  /** In an upgrade, the byte after a leading byte of a pair is its
      continuation byte. */
  lemma {:induction false} PairsComplete(src: seq<byte>)
    ensures PairsWhole(Latin1Encoding(src))
  {
    if |src| > 0 {
      var init := src[..|src| - 1];
      PairsComplete(init);
      var a, c := Latin1Encoding(init), Latin1Char(src[|src| - 1]);
      var e := a + c;
      assert Latin1Encoding(src) == e;
      forall j | 0 <= j < |e| && e[j] >= 0xC0 ensures j + 1 < |e| && IsTail(e[j + 1]) {
        if j < |a| {
          assert e[j] == a[j];
          assert j + 1 < |a| && IsTail(a[j + 1]);
          assert e[j + 1] == a[j + 1];
        } else {
          assert e[j] == c[j - |a|];
          assert j == |a| && |c| == 2;
          assert e[j + 1] == c[1];
        }
      }
    }
  }

  /** A stored leading byte is always followed, inside the buffer, by its
      stored continuation byte: a pair is never split by the capacity. */
  lemma Latin1NeverSplitsPair(src: seq<byte>, buflen: nat)
    ensures var r := Latin1ToUTF8(src, buflen);
      forall j :: 0 <= j < buflen && r.buf[j].Written? && r.buf[j].value >= 0xC0 ==>
        j + 1 < buflen && r.buf[j + 1].Written? && IsTail(r.buf[j + 1].value)
  {
    var r := Latin1ToUTF8(src, buflen);
    var k := FitCount(src, buflen);
    var done := Latin1Encoding(src[..k]);
    Latin1StoresWholeCharacters(src, buflen);
    PairsComplete(src[..k]);
    forall j | 0 <= j < buflen && r.buf[j].Written? && r.buf[j].value >= 0xC0
      ensures j + 1 < buflen && r.buf[j + 1].Written? && IsTail(r.buf[j + 1].value)
    {
      assert j < |done|;
      assert r.buf[j] == Written(done[j]);
    }
  }

  lemma {:induction false} EncodeSubstitutedAppend(a: seq<nat>, b: seq<nat>)
    ensures EncodeSubstituted(a + b) == EncodeSubstituted(a) + EncodeSubstituted(b)
    decreases |a|
  {
    if |a| > 0 {
      assert (a + b)[1..] == a[1..] + b;
      EncodeSubstitutedAppend(a[1..], b);
    } else {
      assert a + b == b;
    }
  }

  /** The upgrade is the UTF-8 encoding of the Latin-1 code points. */
  lemma {:induction false} Latin1IsEncodingOfCodePoints(src: seq<byte>)
    ensures Latin1Encoding(src) == EncodeSubstituted(CodePoints(src))
  {
    if |src| > 0 {
      var init, last := src[..|src| - 1], src[|src| - 1];
      Latin1IsEncodingOfCodePoints(init);
      assert CodePoints(src) == CodePoints(init) + [last as nat];
      EncodeSubstitutedAppend(CodePoints(init), [last as nat]);
      Latin1CharIsEncoding(last);
    }
  }

  /** One Latin-1 byte upgrades to the UTF-8 encoding of its code point. */
  lemma Latin1CharIsEncoding(b: byte)
    ensures EncodeSubstituted([b as nat]) == Latin1Char(b)
  {
    assert [b as nat][1..] == [];
    assert EncodeSubstituted([b as nat]) == EncodeScalar(b as nat) + EncodeSubstituted([]);
  }

  /** The upgrade passes the gate and decodes back to the Latin-1 code
      points, one per source byte. */
  lemma Latin1UpgradeIsValid(src: seq<byte>)
    ensures IsValidUTF8String(Latin1Encoding(src))
    ensures IsValidUTF8StringCorrected(Latin1Encoding(src))
    ensures DecodeAll(Latin1Encoding(src)) == CodePoints(src)
  {
    Latin1IsEncodingOfCodePoints(src);
    EncodingsAreValid(CodePoints(src));
  }

  /** ASCII input is copied unchanged and its count is its length. */
  lemma {:induction false} AsciiUnchanged(src: seq<byte>)
    requires IsAscii(src)
    ensures Latin1Encoding(src) == src
    ensures Latin1ToUTF8(src, |src|).needed == |src|
  {
    if |src| > 0 {
      AsciiUnchanged(src[..|src| - 1]);
    }
    EncodingLength(src);
  }

  /** "Aé" in Latin-1, 41 E9, upgrades to 41 C3 A9. */
  lemma Latin1ExampleEncoding()
    ensures Latin1Encoding([0x41, 0xE9]) == [0x41, 0xC3, 0xA9]
    ensures FitCount([0x41, 0xE9], 2) == 1
  {
    var src: seq<byte> := [0x41, 0xE9];
    assert src[..1] == [0x41] && src[..1][..0] == [] && src[..2] == src;
    assert Latin1Encoding(src[..1]) == [0x41];
  }

  /** With room for the NUL, all of 41 C3 A9 00 is stored. */
  lemma Latin1ExampleRoomy()
    ensures Latin1ToUTF8([0x41, 0xE9], 4) == Upgrade(3, [Written(0x41), Written(0xC3), Written(0xA9), Written(0)])
    ensures Latin1ToUTF8([0x41, 0xE9], 3) == Upgrade(3, [Written(0x41), Written(0xC3), Written(0xA9)])
  {
    Latin1ExampleEncoding();
    var src: seq<byte> := [0x41, 0xE9];
    assert src[..2] == src;
  }

  /** With room for two bytes only the 41 is stored, and 3 is still
      returned; the pair C3 A9 is not split. */
  lemma Latin1ExampleCramped()
    ensures Latin1ToUTF8([0x41, 0xE9], 2) == Upgrade(3, [Written(0x41), Unwritten])
    ensures Latin1ToUTF8([0x41, 0xE9], 1) == Upgrade(3, [Written(0x41)])
  {
    Latin1ExampleEncoding();
    var src: seq<byte> := [0x41, 0xE9];
    assert src[..1] == [0x41];
    assert Latin1Encoding(src[..1]) == [0x41] by { assert src[..1][..0] == []; }
    assert |Latin1Encoding(src[..2])| > 1 by { assert src[..2] == src; }
    assert FitCount(src, 1) == 1;
  }
}
