/**
 milliseconds_diff: the time between two readings of a millisecond counter
 held in an `unsigned long` of `w` bits, which wraps around at 2^w.
 */
module Clock {

  function Pow2(w: nat): (p: nat)
    ensures p >= 1
  {
    if w == 0 then 1 else 2 * Pow2(w - 1)
  }

  /** A word of `a + b` bits spans the ranges of an `a`-bit and a `b`-bit word. */
  lemma {:induction false} Pow2Add(a: nat, b: nat)
    ensures Pow2(a + b) == Pow2(a) * Pow2(b)
    decreases a
  {
    if a > 0 {
      Pow2Add(a - 1, b);
    }
  }

  /** An `unsigned long` of width `w`. */
  predicate InWord(x: int, w: nat)
  {
    0 <= x < Pow2(w)
  }

  /** `ms_new - ms_old` in unsigned arithmetic: when the subtraction goes
      below zero, the result wraps around by 2^w. */
  function MillisecondsDiff(msOld: nat, msNew: nat, w: nat): (d: nat)
    requires InWord(msOld, w) && InWord(msNew, w)
    ensures InWord(d, w)
    ensures msOld + d == msNew || msOld + d == msNew + Pow2(w)
  {
    if msNew >= msOld then msNew - msOld else msNew + Pow2(w) - msOld
  }

  /** The counter `d` milliseconds after it read `ms`, wrapping at 2^w. */
  function Advance(ms: nat, d: nat, w: nat): (r: nat)
    requires InWord(ms, w) && InWord(d, w)
    ensures InWord(r, w)
    ensures r == ms + d || r + Pow2(w) == ms + d
  {
    if ms + d < Pow2(w) then ms + d else ms + d - Pow2(w)
  }

  /** Any span shorter than 2^w milliseconds is measured exactly, across a
      wrap of the counter or not. */
  lemma DiffOfAdvance(ms: nat, d: nat, w: nat)
    requires InWord(ms, w) && InWord(d, w)
    ensures MillisecondsDiff(ms, Advance(ms, d, w), w) == d
  {
    var later := Advance(ms, d, w);
    if ms + d < Pow2(w) {
      assert later == ms + d;
    } else {
      assert later + Pow2(w) == ms + d;
      assert later < ms;
    }
  }

  /** Conversely, advancing the older reading by the difference gives the
      newer reading back. */
  lemma AdvanceByDiff(msOld: nat, msNew: nat, w: nat)
    requires InWord(msOld, w) && InWord(msNew, w)
    ensures Advance(msOld, MillisecondsDiff(msOld, msNew, w), w) == msNew
  {
    var d := MillisecondsDiff(msOld, msNew, w);
    if msNew >= msOld {
      assert d == msNew - msOld;
    } else {
      assert msOld + d == msNew + Pow2(w);
    }
  }

  /** With a 32-bit counter, a reading of 0xFFFFFF00 followed by 0x100
      is 0x200 milliseconds apart. */
  lemma WrapExample()
    ensures Pow2(32) == 0x1_0000_0000
    ensures MillisecondsDiff(0xFFFF_FF00, 0x100, 32) == 0x200
    ensures MillisecondsDiff(0x100, 0x300, 32) == 0x200
  {
    assert Pow2(8) == 0x100;
    Pow2Add(8, 8);
    Pow2Add(16, 16);
  }
}
