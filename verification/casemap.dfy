/**
 The case maps and length-aware comparators of irccmd.c: ASCII folding,
 RFC 1459 folding (section 2.2 of RFC 1459 makes `{}|` the lower case of
 `[]\`, and common practice adds `~` for `^`), and the strict variant
 without the `^` pair. A character reaches the maps as a C `char`, whose
 signedness depends on the platform; the model takes it as a parameter.
 */
module CaseMap {
  import opened Buffers

  /** Whether the platform's `char` is signed. */
  datatype Signedness = SignedChar | UnsignedChar

  /** The value a byte has as a C `char`. */
  function CharValue(b: byte, sign: Signedness): (v: int)
    ensures sign == UnsignedChar ==> v == b
    ensures sign == SignedChar ==> -128 <= v < 128 && (v == b || v == b - 0x100)
  {
    if sign == SignedChar && b >= 0x80 then b - 0x100 else b
  }

  /** Distinct bytes are distinct characters, whatever the signedness. */
  lemma CharValueInjective(a: byte, b: byte, sign: Signedness)
    ensures CharValue(a, sign) == CharValue(b, sign) <==> a == b
  {
  }

  datatype CaseMapping = Ascii | Rfc1459 | StrictRfc1459

  /** The last character of the run from 'A' that the mapping lowers. */
  function LastUpper(m: CaseMapping): char
  {
    match m
    case Ascii => 'Z'
    case Rfc1459 => '^'
    case StrictRfc1459 => ']'
  }

  /** tolower_ascii, tolower_rfc1459 and tolower_strict_rfc1459: a character
      from 'A' to the mapping's last upper-case character moves up by
      'a' - 'A'; every other character is its own lower case. */
  function ToLower(m: CaseMapping, ch: int): int
  {
    if 'A' as int <= ch <= LastUpper(m) as int then 'a' as int + (ch - 'A' as int) else ch
  }

  // ---------------------------------------------------------------------------
  // Reference tables
  // ---------------------------------------------------------------------------

  /** The upper-case characters of a mapping, listed. */
  function Uppers(m: CaseMapping): string
  {
    "ABCDEFGHIJKLMNOPQRSTUVWXYZ" +
    match m
    case Ascii => ""
    case Rfc1459 => "[\\]^"
    case StrictRfc1459 => "[\\]"
  }

  /** Their lower-case partners, in the same order. */
  function Lowers(m: CaseMapping): string
  {
    "abcdefghijklmnopqrstuvwxyz" +
    match m
    case Ascii => ""
    case Rfc1459 => "{|}~"
    case StrictRfc1459 => "{|}"
  }

  /** Table lookup: the partner of `ch` in `lows` if `ch` is listed in
      `ups`, `ch` itself otherwise. */
  function Lookup(ups: string, lows: string, ch: int): int
    requires |ups| == |lows|
  {
    if |ups| == 0 then ch
    else if ups[0] as int == ch then lows[0] as int
    else Lookup(ups[1..], lows[1..], ch)
  }

  /** Lookup in a table of two consecutive runs of characters. */
  lemma {:induction false} LookupRuns(ups: string, lows: string, up: int, low: int, ch: int)
    requires |ups| == |lows|
    requires forall j :: 0 <= j < |ups| ==> ups[j] as int == up + j && lows[j] as int == low + j
    ensures Lookup(ups, lows, ch) == if up <= ch < up + |ups| then low + (ch - up) else ch
  {
    if |ups| > 0 && ups[0] as int != ch {
      LookupRuns(ups[1..], lows[1..], up + 1, low + 1, ch);
    }
  }

  /** The letters are one run of consecutive characters. */
  lemma LettersAreARun(ups: string, lows: string)
    requires ups == "ABCDEFGHIJKLMNOPQRSTUVWXYZ" && lows == "abcdefghijklmnopqrstuvwxyz"
    ensures forall j :: 0 <= j < |ups| ==> ups[j] as int == 'A' as int + j && lows[j] as int == 'a' as int + j
  {
  }

  /** Each case map is the lookup in its table. */
  lemma ToLowerMatchesTable(m: CaseMapping, ch: int)
    ensures |Uppers(m)| == |Lowers(m)|
    ensures ToLower(m, ch) == Lookup(Uppers(m), Lowers(m), ch)
  {
    var letters, lower := "ABCDEFGHIJKLMNOPQRSTUVWXYZ", "abcdefghijklmnopqrstuvwxyz";
    LettersAreARun(letters, lower);
    var ups, lows := Uppers(m), Lowers(m);
    assert ups[..26] == letters && lows[..26] == lower;
    forall j | 0 <= j < |ups| ensures ups[j] as int == 'A' as int + j && lows[j] as int == 'a' as int + j {
      if j < 26 {
        assert ups[j] == letters[j] && lows[j] == lower[j];
      }
    }
    LookupRuns(ups, lows, 'A' as int, 'a' as int, ch);
  }

  /** Lowering twice is lowering once. */
  lemma ToLowerIdempotent(m: CaseMapping, ch: int)
    ensures ToLower(m, ToLower(m, ch)) == ToLower(m, ch)
  {
  }

  /** The two RFC 1459 maps agree everywhere except on '^'. */
  lemma StrictDiffersOnlyOnCaret(ch: int)
    ensures ToLower(StrictRfc1459, ch) != ToLower(Rfc1459, ch) <==> ch == '^' as int
  {
  }

  // ---------------------------------------------------------------------------
  // Comparators
  // ---------------------------------------------------------------------------

  /** A byte string as the comparator sees it after the case map. */
  function Fold(m: CaseMapping, sign: Signedness, s: seq<byte>): (f: seq<int>)
    ensures |f| == |s|
    ensures forall i :: 0 <= i < |s| ==> f[i] == ToLower(m, CharValue(s[i], sign))
  {
    seq(|s|, i requires 0 <= i < |s| => ToLower(m, CharValue(s[i], sign)))
  }

  /** The comparator loop from index `i` on, when the first `i` positions
      fold equal. */
  function CompareFrom(m: CaseMapping, sign: Signedness, s1: seq<byte>, s2: seq<byte>, i: nat): (r: int)
    requires i <= |s1| && i <= |s2|
    ensures r == 0 <==> |s1| == |s2| && Fold(m, sign, s1)[i..] == Fold(m, sign, s2)[i..]
    decreases |s1| - i
  {
    var f1, f2 := Fold(m, sign, s1), Fold(m, sign, s2);
    if i == |s1| then
      if i == |s2| then 0 else -1
    else if i == |s2| then
      1
    else if ToLower(m, CharValue(s1[i], sign)) != ToLower(m, CharValue(s2[i], sign)) then
      CharValueInjective(s1[i], s2[i], sign);
      assert f1[i..][0] != f2[i..][0];
      CharValue(s1[i], sign) - CharValue(s2[i], sign)
    else
      var r := CompareFrom(m, sign, s1, s2, i + 1);
      assert f1[i..] == [f1[i]] + f1[i + 1..];
      assert f2[i..] == [f2[i]] + f2[i + 1..];
      assert f1[i..] == f2[i..] ==> f1[i + 1..] == f2[i + 1..] by {
        if f1[i..] == f2[i..] {
          assert f1[i + 1..] == f1[i..][1..];
          assert f2[i + 1..] == f2[i..][1..];
        }
      }
      r
  }

  /** compare_ascii, compare_rfc1459 and compare_strict_rfc1459 on byte
      strings with explicit lengths: 0 exactly when both fold to the same
      string. */
  function Compare(m: CaseMapping, sign: Signedness, s1: seq<byte>, s2: seq<byte>): (r: int)
    ensures r == 0 <==> Fold(m, sign, s1) == Fold(m, sign, s2)
  {
    var r := CompareFrom(m, sign, s1, s2, 0);
    assert Fold(m, sign, s1)[0..] == Fold(m, sign, s1);
    assert Fold(m, sign, s2)[0..] == Fold(m, sign, s2);
    r
  }

  /** Position `i` is the first at which the folded strings differ. */
  predicate FirstMismatch(f1: seq<int>, f2: seq<int>, i: nat)
  {
    i < |f1| && i < |f2| && f1[..i] == f2[..i] && f1[i] != f2[i]
  }

  lemma {:induction false} CompareFromOutcome(m: CaseMapping, sign: Signedness, s1: seq<byte>, s2: seq<byte>, i: nat)
    requires i <= |s1| && i <= |s2|
    requires Fold(m, sign, s1)[..i] == Fold(m, sign, s2)[..i]
    ensures var f1, f2, r := Fold(m, sign, s1), Fold(m, sign, s2), CompareFrom(m, sign, s1, s2, i);
      && (f1 < f2 ==> r == -1)
      && (f2 < f1 ==> r == 1)
      && (!(f1 <= f2) && !(f2 <= f1) ==>
            exists j: nat :: FirstMismatch(f1, f2, j) && r == CharValue(s1[j], sign) - CharValue(s2[j], sign))
    decreases |s1| - i
  {
    var f1, f2 := Fold(m, sign, s1), Fold(m, sign, s2);
    if i == |s1| {
      assert f1 == f1[..i];
      assert f1 <= f2;
    } else if i == |s2| {
      assert f2 == f2[..i];
      assert f2 <= f1;
    } else if f1[i] != f2[i] {
      assert FirstMismatch(f1, f2, i);
      assert !(f1 <= f2) && !(f2 <= f1);
    } else {
      assert f1[..i + 1] == f1[..i] + [f1[i]];
      assert f2[..i + 1] == f2[..i] + [f2[i]];
      CompareFromOutcome(m, sign, s1, s2, i + 1);
    }
  }

  /** When one string folds to a proper prefix of the other the answer is
      -1 or +1; otherwise it is the raw difference of the characters at the
      first folded mismatch, which is never 0. */
  lemma CompareOutcome(m: CaseMapping, sign: Signedness, s1: seq<byte>, s2: seq<byte>)
    ensures var f1, f2, r := Fold(m, sign, s1), Fold(m, sign, s2), Compare(m, sign, s1, s2);
      && (f1 < f2 ==> r == -1)
      && (f2 < f1 ==> r == 1)
      && (!(f1 <= f2) && !(f2 <= f1) ==>
            r != 0 && exists j: nat :: FirstMismatch(f1, f2, j) && r == CharValue(s1[j], sign) - CharValue(s2[j], sign))
  {
    CompareFromOutcome(m, sign, s1, s2, 0);
  }

  /** Swapping the arguments negates the answer. */
  lemma {:induction false} CompareFromAntisymmetric(m: CaseMapping, sign: Signedness, s1: seq<byte>, s2: seq<byte>, i: nat)
    requires i <= |s1| && i <= |s2|
    ensures CompareFrom(m, sign, s2, s1, i) == -CompareFrom(m, sign, s1, s2, i)
    decreases |s1| - i
  {
    if i < |s1| && i < |s2| && ToLower(m, CharValue(s1[i], sign)) == ToLower(m, CharValue(s2[i], sign)) {
      CompareFromAntisymmetric(m, sign, s1, s2, i + 1);
    }
  }

  lemma CompareAntisymmetric(m: CaseMapping, sign: Signedness, s1: seq<byte>, s2: seq<byte>)
    ensures Compare(m, sign, s2, s1) == -Compare(m, sign, s1, s2)
  {
    CompareFromAntisymmetric(m, sign, s1, s2, 0);
  }

  /** A character string of code points below 256, as the bytes C sees. */
  function Bytes(s: string): (b: seq<byte>)
    requires forall i :: 0 <= i < |s| ==> s[i] as int < 0x100
    ensures |b| == |s| && forall i :: 0 <= i < |s| ==> b[i] == s[i] as int
  {
    seq(|s|, i requires 0 <= i < |s| => s[i] as int)
  }

  /** The case-map checks of compare_Test. */
  lemma ToLowerExamples()
    ensures ToLower(Ascii, 'a' as int) == 'a' as int && ToLower(Ascii, 'A' as int) == 'a' as int
    ensures ToLower(Ascii, 'F' as int) == 'f' as int && ToLower(Ascii, 'W' as int) == 'w' as int
    ensures ToLower(Ascii, 'w' as int) == 'w' as int
    ensures ToLower(Ascii, 'Z' as int) == 'z' as int && ToLower(Ascii, 'z' as int) == 'z' as int
  {
  }

  /** Strings that fold together compare equal. */
  lemma FoldTogether(m: CaseMapping, sign: Signedness, s1: seq<byte>, s2: seq<byte>)
    requires |s1| == |s2|
    requires forall i :: 0 <= i < |s1| ==> ToLower(m, CharValue(s1[i], sign)) == ToLower(m, CharValue(s2[i], sign))
    ensures Compare(m, sign, s1, s2) == 0
  {
    assert Fold(m, sign, s1) == Fold(m, sign, s2);
  }

  /** The compare_ascii checks of compare_Test. */
  lemma CompareAsciiExamples(sign: Signedness)
    ensures Compare(Ascii, sign, Bytes("hello"), Bytes("hello")) == 0
    ensures Compare(Ascii, sign, Bytes("Hello"), Bytes("hello")) == 0
  {
    FoldTogether(Ascii, sign, Bytes("hello"), Bytes("hello"));
    FoldTogether(Ascii, sign, Bytes("Hello"), Bytes("hello"));
  }

  /** The compare_rfc1459 checks of compare_Test. */
  lemma CompareRfc1459Examples(sign: Signedness)
    ensures Compare(Rfc1459, sign, Bytes("Hello"), Bytes("hello")) == 0
    ensures Compare(Rfc1459, sign, Bytes("H~l\\o"), Bytes("h^l|o")) == 0
  {
    FoldTogether(Rfc1459, sign, Bytes("Hello"), Bytes("hello"));
    FoldTogether(Rfc1459, sign, Bytes("H~l\\o"), Bytes("h^l|o"));
  }

  /** The compare_strict_rfc1459 checks of compare_Test. */
  lemma CompareStrictExamples(sign: Signedness)
    ensures Compare(StrictRfc1459, sign, Bytes("Hello"), Bytes("hello")) == 0
    ensures Compare(StrictRfc1459, sign, Bytes("Hel\\o"), Bytes("hel|o")) == 0
  {
    FoldTogether(StrictRfc1459, sign, Bytes("Hello"), Bytes("hello"));
    FoldTogether(StrictRfc1459, sign, Bytes("Hel\\o"), Bytes("hel|o"));
  }

  /** Where the two RFC 1459 comparators part ways, and a folded prefix. */
  lemma CompareContrasts(sign: Signedness)
    ensures Compare(Rfc1459, sign, Bytes("^"), Bytes("~")) == 0
    ensures Compare(StrictRfc1459, sign, Bytes("^"), Bytes("~")) == '^' as int - '~' as int
    ensures Compare(Ascii, sign, Bytes("ab"), Bytes("ABC")) == -1
  {
    FoldTogether(Rfc1459, sign, Bytes("^"), Bytes("~"));
    var ab, abc := Fold(Ascii, sign, Bytes("ab")), Fold(Ascii, sign, Bytes("ABC"));
    assert ab == abc[..2];
    CompareOutcome(Ascii, sign, Bytes("ab"), Bytes("ABC"));
  }
}
