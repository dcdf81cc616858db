/** Machine-level vocabulary shared by the string routines: the 8-bit `char`
    of the target, its fixed-width unsigned integers, and the C string held
    in a buffer (the cells before the first NUL). */
module CString {

  /** A `char` of the 8-bit target: one byte. */
  type CChar = c: char | c as int < 256 witness '\0'

  /** The terminator of a C string. */
  const NUL: CChar := '\0'

  /** `uint8_t` and `uint16_t`. */
  type U8 = x: int | 0 <= x < 0x100
  type U16 = x: int | 0 <= x < 0x1_0000

  function Min(a: int, b: int): int
  {
    if a <= b then a else b
  }

  /** Distance from the start of `s` to its first NUL (or |s| when there is none). */
  function Len(s: seq<CChar>): (n: nat)
    ensures n <= |s|
    ensures forall i :: 0 <= i < n ==> s[i] != NUL
    ensures n < |s| ==> s[n] == NUL
    ensures n < |s| <==> NUL in s
  {
    if s == [] || s[0] == NUL then 0 else 1 + Len(s[1..])
  }

  /** The buffer holds a C string: a NUL occurs somewhere in it. */
  predicate Terminated(s: seq<CChar>)
  {
    NUL in s
  }

  /** The C string a buffer holds: the characters before its first NUL. */
  function Content(s: seq<CChar>): (r: seq<CChar>)
    ensures NUL !in r
    ensures |r| == Len(s) && r == s[..|r|]
    ensures Terminated(s) ==> s[|r|] == NUL
  {
    s[..Len(s)]
  }

  /** A NUL at `n` with no NUL before it makes `n` the length. */
  lemma LenFromCells(s: seq<CChar>, n: nat)
    requires n < |s| && s[n] == NUL
    requires forall i :: 0 <= i < n ==> s[i] != NUL
    ensures Len(s) == n && Content(s) == s[..n]
  {
  }

  /** A NUL-free prefix followed by a NUL is exactly what the buffer holds. */
  lemma ContentOf(x: seq<CChar>, rest: seq<CChar>)
    requires NUL !in x
    ensures Len(x + [NUL] + rest) == |x|
    ensures Content(x + [NUL] + rest) == x
  {
    var s := x + [NUL] + rest;
    assert s[|x|] == NUL;
    assert forall i :: 0 <= i < |x| ==> s[i] == x[i];
  }
}
