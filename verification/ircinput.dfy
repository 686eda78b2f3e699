/**
 The validate-or-upgrade rule of irc_input: a line that is pure ASCII or
 passes isValidUTF8String is returned as it is; any other line is taken to
 be Latin-1 and upgraded into a 2048-byte stack buffer, of which the first
 min(needed, 2048) bytes are returned.
 */
module IrcInput {
  import opened Buffers
  import opened Utf8
  import opened Utf8Lemmas
  import opened Utf8RoundTrip
  import opened Latin1

  /** The size of irc_input's buffer, `char buf[1024 * 2]`. */
  const Capacity: nat := 1024 * 2

  /** The line holds a byte at or above 0x80 and the gate rejects it. */
  predicate NeedsUpgrade(line: seq<byte>)
  {
    !IsAscii(line) && !IsValidUTF8String(line)
  }

  /** The scan of irc_input: look for the first byte at or above 0x80, run
      the gate once there, and stop. */
  method IrcInputDecision(line: seq<byte>) returns (upgrade: bool)
    ensures upgrade <==> NeedsUpgrade(line)
  {
    var i := 0;
    while i < |line|
      invariant i <= |line|
      invariant IsAscii(line[..i])
      decreases |line| - i
    {
      if line[i] >= 0x80 {
        var valid := ValidateUTF8(line);
        return !valid;
      }
      assert line[..i + 1] == line[..i] + [line[i]];
      i := i + 1;
    }
    assert line[..i] == line;
    return false;
  }

  /** The bytes latin1toUTF8 stores into irc_input's buffer: the upgrade of
      the longest prefix of the line whose upgrade fits in 2048 bytes. */
  function StoredUpgrade(line: seq<byte>): seq<byte>
  {
    Latin1Encoding(line[..FitCount(line, Capacity)])
  }

  /** What irc_input returns for a string argument, slot by slot: a line the
      gate accepts comes back whole; otherwise min(needed, 2048) slots come
      back, the first of which hold the stored upgrade and the rest of which
      were never written. */
  function IrcInput(line: seq<byte>): (r: seq<Slot<byte>>)
    ensures !NeedsUpgrade(line) ==> r == WrittenAll(line)
    ensures NeedsUpgrade(line) ==>
      |r| == (if |Latin1Encoding(line)| < Capacity then |Latin1Encoding(line)| else Capacity)
    ensures NeedsUpgrade(line) ==> Holds(r, StoredUpgrade(line))
    ensures NeedsUpgrade(line) ==>
      forall j :: |StoredUpgrade(line)| <= j < |r| ==> r[j] == Unwritten
  {
    if !NeedsUpgrade(line) then WrittenAll(line)
    else
      var u := Latin1ToUTF8(line, Capacity);
      var rl := if u.needed >= Capacity then Capacity else u.needed;
      Latin1StoresWholeCharacters(line, Capacity);
      EncodingLength(line);
      assert |StoredUpgrade(line)| <= rl by {
        if u.needed < Capacity {
          assert line[..|line|] == line;
          assert FitCount(line, Capacity) == |line|;
        }
      }
      u.buf[..rl]
  }

  // ---------------------------------------------------------------------------
  // Properties
  // ---------------------------------------------------------------------------

  /** ASCII bytes in front of a buffer do not change the gate's verdict. */
  lemma {:induction false} AsciiPrefixValid(rule: Legality, a: seq<byte>, rest: seq<byte>)
    requires IsAscii(a)
    ensures ValidWith(rule, a + rest) == ValidWith(rule, rest)
    decreases |a|
  {
    if |a| > 0 {
      var buf := a + rest;
      TrailingBytesByRange(a[0]);
      assert buf[..1] == [a[0]];
      assert buf[1..] == a[1..] + rest;
      AccumulateDigits(buf[..1]);
      AsciiPrefixValid(rule, a[1..], rest);
    } else {
      assert a + rest == rest;
    }
  }

  /** Pure ASCII passes both gates. */
  lemma AsciiIsValid(line: seq<byte>)
    requires IsAscii(line)
    ensures IsValidUTF8String(line) && IsValidUTF8StringCorrected(line)
  {
    AsciiPrefixValid(AsWritten, line, []);
    AsciiPrefixValid(Corrected, line, []);
    assert line + [] == line;
  }

  /** A line the gate accepts, pure ASCII included, comes back unchanged. */
  lemma IrcInputKeepsValid(line: seq<byte>)
    requires IsValidUTF8String(line) || IsAscii(line)
    ensures IrcInput(line) == WrittenAll(line)
  {
  }

  /** The bytes of a buffer every slot of which was written. */
  function Contents(buf: seq<Slot<byte>>): (s: seq<byte>)
    requires AllWritten(buf)
    ensures |s| == |buf| && Holds(buf, s)
  {
    seq(|buf|, i requires 0 <= i < |buf| => buf[i].value)
  }

  /** A line the gate rejects and whose upgrade fits in 2048 bytes comes
      back as the whole upgrade: valid UTF-8 that decodes to the line's
      Latin-1 code points. */
  lemma IrcInputUpgrades(line: seq<byte>)
    requires !IsValidUTF8String(line)
    requires |Latin1Encoding(line)| <= Capacity
    ensures !IsAscii(line)
    ensures var r := IrcInput(line);
      && AllWritten(r)
      && Contents(r) == Latin1Encoding(line)
      && IsValidUTF8String(Contents(r))
      && DecodeAll(Contents(r)) == CodePoints(line)
  {
    if IsAscii(line) {
      AsciiIsValid(line);
    }
    var enc := Latin1Encoding(line);
    assert line[..|line|] == line;
    assert StoredUpgrade(line) == enc;
    Latin1UpgradeIsValid(line);
    var r := IrcInput(line);
    assert |r| == |enc| && Holds(r, enc);
    assert Contents(r) == enc;
  }

  /** When the upgrade needs more than 2048 bytes and a pair straddles the
      end of the buffer, the last returned slot was never written. */
  lemma IrcInputStraddleUnwritten(line: seq<byte>)
    requires NeedsUpgrade(line)
    requires |Latin1Encoding(line)| > Capacity
    requires |Latin1Encoding(line[..FitCount(line, Capacity)])| == Capacity - 1
    ensures |IrcInput(line)| == Capacity
    ensures IrcInput(line)[Capacity - 1] == Unwritten
  {
    Latin1StoresWholeCharacters(line, Capacity);
    EncodingLength(line);
  }

  /** 2047 letters followed by 0xE9: the gate rejects the line, the upgrade
      needs 2049 bytes, and the 2048 bytes returned end in a slot nothing
      was stored into. */
  lemma IrcInputStraddleExample()
    ensures var line := seq(Capacity - 1, _ => 0x41) + [0xE9];
      && NeedsUpgrade(line)
      && |IrcInput(line)| == Capacity
      && IrcInput(line)[Capacity - 1] == Unwritten
  {
    var letters: seq<byte> := seq(Capacity - 1, _ => 0x41);
    var line := letters + [0xE9];
    assert IsAscii(letters);
    assert !IsAscii(line) by { assert line[Capacity - 1] == 0xE9; }
    assert !IsValidUTF8String(line) by {
      AsciiPrefixValid(AsWritten, letters, [0xE9]);
      TrailingBytesByRange(0xE9);
    }
    assert line[..Capacity - 1] == letters;
    AsciiUnchanged(letters);
    StraddleFitCount(line, letters);
    EncodingStep(line, Capacity - 1);
    assert line[..Capacity] == line;
    IrcInputStraddleUnwritten(line);
  }

  lemma StraddleFitCount(line: seq<byte>, letters: seq<byte>)
    requires |letters| == Capacity - 1 && IsAscii(letters)
    requires line == letters + [0xE9]
    ensures FitCount(line, Capacity) == Capacity - 1
    ensures |Latin1Encoding(line[..Capacity - 1])| == Capacity - 1
  {
    var k := FitCount(line, Capacity);
    assert line[..Capacity - 1] == letters;
    AsciiUnchanged(letters);
  }

  // ---------------------------------------------------------------------------
  // Returning only what was written
  // ---------------------------------------------------------------------------

  /** irc_input returning only the bytes latin1toUTF8 actually stored (the
      upgrade of the longest fitting prefix) instead of min(needed, 2048). */
  function IrcInputWrittenOnly(line: seq<byte>): (r: seq<byte>)
    ensures NeedsUpgrade(line) ==> |r| <= Capacity
  {
    if !NeedsUpgrade(line) then line
    else StoredUpgrade(line)
  }

  /** What IrcInputWrittenOnly returns for a line that needs the upgrade
      fits the buffer, passes the gate, and decodes to the code points of
      the longest prefix whose upgrade fits. */
  lemma IrcInputWrittenOnlyIsSound(line: seq<byte>)
    requires NeedsUpgrade(line)
    ensures var r := IrcInputWrittenOnly(line);
      && |r| <= Capacity
      && IsValidUTF8String(r)
      && DecodeAll(r) == CodePoints(line[..FitCount(line, Capacity)])
  {
    Latin1UpgradeIsValid(line[..FitCount(line, Capacity)]);
  }

  /** Whenever the whole upgrade fits, IrcInputWrittenOnly and irc_input
      return the same bytes. */
  lemma IrcInputWrittenOnlyAgrees(line: seq<byte>)
    requires NeedsUpgrade(line)
    requires |Latin1Encoding(line)| <= Capacity
    ensures WrittenAll(IrcInputWrittenOnly(line)) == IrcInput(line)
  {
    IrcInputUpgrades(line);
    var k := FitCount(line, Capacity);
    assert line[..|line|] == line;
    assert k == |line|;
  }
}
