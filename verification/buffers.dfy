/**
 Shared vocabulary for the byte- and string-level helpers of irccmd:
 bytes, optional values, C strings, and caller-owned output buffers whose
 slots may never have been written.
 */
module Buffers {

  /** An 8-bit unit, as `unsigned char` holds it. */
  type byte = b: int | 0 <= b < 0x100

  datatype Option<T> = None | Some(value: T)

  /** One cell of a fixed-capacity output buffer. A cell the code never stores
      into keeps whatever the caller had there, which the model does not know. */
  datatype Slot<T> = Unwritten | Written(value: T)

  /** A buffer of `n` cells none of which has been stored into. */
  function Blank<T>(n: nat): (buf: seq<Slot<T>>)
    ensures |buf| == n
    ensures forall i :: 0 <= i < n ==> buf[i] == Unwritten
  {
    seq(n, _ => Unwritten)
  }

  /** The buffer after the guarded store `if (i < buflen) buf[i] = v;`:
      an index outside the buffer leaves every cell as it was. */
  function Store<T>(buf: seq<Slot<T>>, i: int, v: T): (r: seq<Slot<T>>)
    ensures |r| == |buf|
    ensures forall j :: 0 <= j < |buf| ==> r[j] == (if j == i then Written(v) else buf[j])
  {
    if 0 <= i < |buf| then buf[i := Written(v)] else buf
  }

  /** The first `|s|` cells of `buf` hold exactly `s`. */
  predicate Holds<T(==)>(buf: seq<Slot<T>>, s: seq<T>)
  {
    |s| <= |buf| && forall i :: 0 <= i < |s| ==> buf[i] == Written(s[i])
  }

  /** The cells of a buffer read back as a sequence, when every one of them was written. */
  predicate AllWritten<T>(buf: seq<Slot<T>>)
  {
    forall i :: 0 <= i < |buf| ==> buf[i].Written?
  }

  /** Every element of `s` stored in order: what an untouched copy looks like. */
  function WrittenAll<T(==)>(s: seq<T>): (buf: seq<Slot<T>>)
    ensures |buf| == |s| && Holds(buf, s) && AllWritten(buf)
  {
    seq(|s|, i requires 0 <= i < |s| => Written(s[i]))
  }

  /** The C string a `char *` designates: everything before the first NUL. */
  function CString(s: string): (r: string)
    ensures |r| <= |s| && r == s[..|r|]
    ensures '\0' !in r
    ensures |r| < |s| ==> s[|r|] == '\0'
  {
    if |s| == 0 || s[0] == '\0' then []
    else
      var rest := CString(s[1..]);
      assert s[1..][..|rest|] == s[1..|rest| + 1];
      [s[0]] + rest
  }

  /** The C-string reading of a string with no NUL is the string itself. */
  lemma CStringOfClean(s: string)
    requires '\0' !in s
    ensures CString(s) == s
  {
  }
}
