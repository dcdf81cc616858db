/** The two templates of include/strings.h: `btos`, which writes the bits of
    an unsigned integer as '0'/'1' characters, and `str_concat`, which appends
    its arguments one after another with `str_add`. */
module Templates {
  import opened CString
  import opened StringWriters

  // ------------------------------------------------------------ arithmetic

  function Pow2(n: nat): (p: nat)
    ensures p >= 1
  {
    if n == 0 then 1 else 2 * Pow2(n - 1)
  }

  lemma MulSign(d: int, m: int)
    requires m > 0
    ensures d >= 1 ==> d * m >= m
    ensures d <= -1 ==> d * m <= -m
  {
    if d >= 1 {
      assert d * m == (d - 1) * m + m;
      assert (d - 1) * m >= 0;
    } else if d <= -1 {
      assert d * m == -((-d - 1) * m) - m;
      assert (-d - 1) * m >= 0;
    }
  }

  lemma DivModUnique(a: int, m: int, q: int, r: int)
    requires m > 0 && 0 <= r < m && a == q * m + r
    ensures a / m == q && a % m == r
  {
    var q', r' := a / m, a % m;
    assert (q - q') * m == r' - r;
    MulSign(q - q', m);
  }

  /** The low `w + 1` bits of `num` are its low `w` bits plus bit `w`. */
  lemma ModPow2Step(num: nat, w: nat)
    ensures num % Pow2(w + 1) == num % Pow2(w) + (if (num / Pow2(w)) % 2 == 1 then Pow2(w) else 0)
  {
    var p := Pow2(w);
    var q, r := num / p, num % p;
    var b, q2 := q % 2, q / 2;
    assert num == q * p + r;
    assert q == 2 * q2 + b;
    assert num == q2 * (2 * p) + (b * p + r);
    DivModUnique(num, 2 * p, q2, b * p + r);
  }

  // ------------------------------------------------------------------ btos

  /** The character `btos` writes for bit `i` of `num`: `num & (1 << i)` is
      non-zero exactly when that bit is set. */
  function BitGlyph(num: nat, i: nat): CChar
  {
    if (num / Pow2(i)) % 2 == 1 then '1' else '0'
  }

  /** The `width` characters `btos` writes: bit `i` at index `i`, so the least
      significant bit comes first. */
  function BitString(num: nat, width: nat): (r: seq<CChar>)
    ensures |r| == width
    ensures forall i :: 0 <= i < width ==> r[i] == '0' || r[i] == '1'
    ensures NUL !in r
  {
    seq(width, i requires 0 <= i => BitGlyph(num, i))
  }

  /** The number a string of '0'/'1' stands for, read least significant
      character first. */
  function LsbValue(bits: seq<CChar>): nat
  {
    if bits == [] then 0
    else LsbValue(bits[..|bits| - 1]) + (if bits[|bits| - 1] == '1' then Pow2(|bits| - 1) else 0)
  }

  /** Reading back what `btos` writes, least significant bit first, gives the
      low `width` bits of the number. */
  lemma {:induction false} BitStringValue(num: nat, width: nat)
    ensures LsbValue(BitString(num, width)) == num % Pow2(width)
  {
    if width > 0 {
      var w := width - 1;
      BitStringValue(num, w);
      assert BitString(num, width)[..w] == BitString(num, w);
      ModPow2Step(num, w);
    }
  }

  /** So for a value of the template's type, `btos` loses nothing: the string
      stands for exactly `num`. */
  lemma BitStringRoundTrip(num: nat, width: nat)
    requires num < Pow2(width)
    ensures LsbValue(BitString(num, width)) == num
  {
    BitStringValue(num, width);
    DivModUnique(num, Pow2(width), 0, num);
  }

  /** `btos` of the 8-bit value 0b00000101 writes "10100000": bit 0 first,
      not the most significant bit first. */
  lemma BitStringOfFive(num: nat)
    requires num == 5
    ensures BitString(num, 8) == "10100000"
  {
    var s := BitString(num, 8);
    assert Pow2(1) == 2 && Pow2(2) == 4 && Pow2(3) == 8 && Pow2(4) == 16;
    assert Pow2(5) == 32 && Pow2(6) == 64 && Pow2(7) == 128;
    assert s[0] == '1' && s[1] == '0' && s[2] == '1' && s[3] == '0';
    assert s[4] == '0' && s[5] == '0' && s[6] == '0' && s[7] == '0';
    assert s == [s[0], s[1], s[2], s[3], s[4], s[5], s[6], s[7]];
  }

  /** `btos<T>` for T = `uint8_t` (width 8) or `uint16_t` (width 16): write
      one glyph per bit and the terminator after them. */
  method Btos(num: nat, width: nat, str: array<CChar>)
    requires width == 8 || width == 16
    requires num < Pow2(width)
    requires width < str.Length
    modifies str
    ensures str[..] == BitString(num, width) + [NUL] + old(str[width + 1..])
  {
    var len := width;
    var i := 0;
    while i < len
      invariant 0 <= i <= len
      invariant forall k :: 0 <= k < i ==> str[k] == BitGlyph(num, k)
      invariant i > 0 ==> str[len] == NUL
      invariant forall k :: i <= k < str.Length && (i == 0 || k != len) ==> str[k] == old(str[k])
    {
      str[i] := if (num / Pow2(i)) % 2 == 1 then '1' else '0';
      str[len] := NUL;
      i := i + 1;
    }
    BitsByCells(num, width, old(str[..]), str[..]);
  }

  /** A buffer whose first `width` cells hold the glyphs, with a NUL after
      them and the old cells beyond, is `BitString` followed by a NUL. */
  lemma BitsByCells(num: nat, width: nat, d: seq<CChar>, r: seq<CChar>)
    requires width < |d| == |r| && r[width] == NUL
    requires forall k :: 0 <= k < width ==> r[k] == BitGlyph(num, k)
    requires forall k :: width < k < |d| ==> r[k] == d[k]
    ensures r == BitString(num, width) + [NUL] + d[width + 1..]
  {
    assert forall k :: 0 <= k < |r| ==> r[k] == (BitString(num, width) + [NUL] + d[width + 1..])[k];
  }

  // ------------------------------------------------------------ str_concat

  /** The buffer `str_concat` leaves: `str_add` of each argument in turn. */
  function AddAll(d: seq<CChar>, destLen: U8, args: seq<seq<CChar>>): (r: seq<CChar>)
    requires Terminated(d) && destLen < |d|
    requires forall k :: 0 <= k < |args| ==> Terminated(args[k])
    ensures |r| == |d| && Terminated(r)
    ensures |args| > 0 ==> r[destLen] == NUL && Len(r) <= destLen
    ensures forall i :: destLen < i < |d| ==> r[i] == d[i]
    decreases |args|
  {
    if args == [] then d else AddAll(Add(d, destLen, args[0]), destLen, args[1..])
  }

  /** With a single argument, `str_concat` is `str_add`. */
  lemma AddAllSingle(d: seq<CChar>, destLen: U8, a: seq<CChar>)
    requires Terminated(d) && Terminated(a) && destLen < |d|
    ensures AddAll(d, destLen, [a]) == Add(d, destLen, a)
  {
    assert [a][1..] == [];
  }

  /** The strings the arguments hold, one after another. */
  function Joined(args: seq<seq<CChar>>): (r: seq<CChar>)
    ensures NUL !in r
  {
    if args == [] then [] else Content(args[0]) + Joined(args[1..])
  }

  /** When the buffer past the string is cleared and the total length stays
      below 256, `str_concat` leaves the destination's string followed by all
      arguments, cut to `dest_len` characters: it stops once the buffer is
      full. */
  lemma {:induction false} AddAllAppends(d: seq<CChar>, destLen: U8, args: seq<seq<CChar>>)
    requires Terminated(d) && destLen < |d|
    requires forall k :: 0 <= k < |args| ==> Terminated(args[k])
    requires Cleared(d, destLen) && Len(d) + |Joined(args)| < 0x100
    ensures Content(AddAll(d, destLen, args)) == Truncate(Content(d) + Joined(args), destLen)
    ensures Cleared(AddAll(d, destLen, args), destLen)
    decreases |args|
  {
    if args == [] {
      assert Content(d) + [] == Content(d);
    } else {
      assert Joined(args) == Content(args[0]) + Joined(args[1..]);
      assert (Content(d) + Content(args[0])) + Joined(args[1..]) == Content(d) + Joined(args);
      AddAppends(d, destLen, args[0]);
      AddAllAppends(Add(d, destLen, args[0]), destLen, args[1..]);
      TruncateAppend(Content(d) + Content(args[0]), Joined(args[1..]), destLen);
    }
  }

  /** Cutting to `m` characters before appending `j` and cutting again is
      the same as cutting once after appending. */
  lemma TruncateAppend(x: seq<CChar>, j: seq<CChar>, m: nat)
    ensures Truncate(Truncate(x, m) + j, m) == Truncate(x + j, m)
  {
    if |x| <= m {
      assert Truncate(x, m) == x;
    } else {
      assert (x[..m] + j)[..m] == x[..m] == (x + j)[..m];
    }
  }

  /** The contents of the argument buffers. */
  function Strings(args: seq<array<CChar>>): (r: seq<seq<CChar>>)
    reads set k | 0 <= k < |args| :: args[k]
    ensures |r| == |args| && forall k :: 0 <= k < |args| ==> r[k] == args[k][..]
  {
    if args == [] then [] else [args[0][..]] + Strings(args[1..])
  }

  /** `str_concat(dest, dest_len, args...)`: `str_add` each argument, in
      order. */
  method StrConcat(dest: array<CChar>, destLen: U8, args: seq<array<CChar>>)
    requires forall k :: 0 <= k < |args| ==> args[k] != dest && Terminated(args[k][..])
    requires |args| > 0 ==> Terminated(dest[..]) && destLen < dest.Length
    modifies dest
    ensures |args| == 0 ==> dest[..] == old(dest[..])
    ensures |args| > 0 ==> dest[..] == AddAll(old(dest[..]), destLen, Strings(args))
  {
    if |args| == 0 {
      return;
    }
    ghost var all := Strings(args);
    var k := 0;
    while k < |args|
      invariant 0 <= k <= |args|
      invariant Strings(args) == all
      invariant Terminated(dest[..])
      invariant AddAll(dest[..], destLen, all[k..]) == AddAll(old(dest[..]), destLen, all)
    {
      assert all[k..][0] == args[k][..] && all[k..][1..] == all[k + 1..];
      StrAdd(dest, destLen, args[k]);
      k := k + 1;
    }
  }
}
