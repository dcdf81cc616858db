/** The routines of src/strings.cpp that write into a caller's buffer:
    slicing, filling, copying and appending. Each method is proved to leave
    the buffer equal to a function of its old contents; the lemmas then say
    what string that function leaves behind. */
module StringWriters {
  import opened CString
  import opened StringQueries

  // ---------------------------------------------------------------- str_cut

  /** The number of characters `str_cut` copies: `end - start` in `uint8_t`. */
  function CutLen(start: U8, end: U8): (n: U8)
    ensures start <= end ==> n == end - start
  {
    (end - start) % 0x100
  }

  /** The buffer `str_cut` leaves: the slice of `s` at the front, a NUL after
      it, the rest of `d` untouched. */
  function Cut(d: seq<CChar>, s: seq<CChar>, start: U8, end: U8): (r: seq<CChar>)
    requires CutLen(start, end) < |d| && start + CutLen(start, end) <= |s|
    ensures |r| == |d|
  {
    var n := CutLen(start, end);
    s[start..start + n] + [NUL] + d[n + 1..]
  }

  /** When the slice holds no NUL, `str_cut` leaves exactly the slice as the
      destination's string: `end - start` characters when `start <= end`. */
  lemma CutContent(d: seq<CChar>, s: seq<CChar>, start: U8, end: U8)
    requires CutLen(start, end) < |d| && start + CutLen(start, end) <= |s|
    requires NUL !in s[start..start + CutLen(start, end)]
    ensures Content(Cut(d, s, start, end)) == s[start..start + CutLen(start, end)]
    ensures start <= end ==> Len(Cut(d, s, start, end)) == end - start
  {
    var n := CutLen(start, end);
    ContentOf(s[start..start + n], d[n + 1..]);
  }

  /** Slicing `[6, 11)` out of "hello world" gives "world". */
  lemma CutHelloWorld(d: seq<CChar>)
    requires 5 < |d|
    ensures Content(Cut(d, "hello world\0", 6, 11)) == "world"
  {
    var s: seq<CChar> := "hello world\0";
    assert s[6..11] == "world";
    CutContent(d, s, 6, 11);
  }

  /** `str_cut`: copy `str[start..end)` to the front of `dest` and terminate.
      The loop reads `str[start + i]` before it writes `dest[i]`, and
      `start + i >= i`, so `dest` and `str` may be the same buffer: an
      in-place cut reads only cells it has not yet written. */
  method StrCut(dest: array<CChar>, str: array<CChar>, start: U8, end: U8)
    requires CutLen(start, end) < dest.Length && start + CutLen(start, end) <= str.Length
    modifies dest
    ensures dest[..] == Cut(old(dest[..]), old(str[..]), start, end)
  {
    var len: U8 := (end - start) % 0x100;
    var i := 0;
    while i < len
      invariant 0 <= i <= len
      invariant forall k :: 0 <= k < i ==> dest[k] == old(str[start + k])
      invariant forall k :: i <= k < dest.Length ==> dest[k] == old(dest[k])
      invariant forall k :: i <= k < str.Length ==> str[k] == old(str[k])
    {
      dest[i] := str[start + i];
      i := i + 1;
    }
    dest[len] := NUL;
    assert forall k :: 0 <= k < dest.Length ==>
      dest[..][k] == Cut(old(dest[..]), old(str[..]), start, end)[k];
  }

  // ---------------------------------------------------------------- str_set

  /** The buffer `str_set` leaves: `len` copies of `c`, then a NUL. */
  function Set(d: seq<CChar>, len: U8, c: CChar): (r: seq<CChar>)
    requires len < |d|
    ensures |r| == |d|
  {
    seq(len, _ => c) + [NUL] + d[len + 1..]
  }

  /** `str_set` with a non-NUL character makes a string of exactly `len`
      copies of it; with NUL it makes the empty string. */
  lemma SetContent(d: seq<CChar>, len: U8, c: CChar)
    requires len < |d|
    ensures c != NUL ==> Content(Set(d, len, c)) == seq(len, _ => c)
    ensures c == NUL ==> Content(Set(d, len, c)) == []
  {
    var r := Set(d, len, c);
    if c != NUL {
      ContentOf(seq(len, _ => c), d[len + 1..]);
    } else {
      assert r[0] == NUL;
    }
  }

  /** `str_set`: fill the first `len` cells with `c`, then terminate. */
  method StrSet(str: array<CChar>, len: U8, c: CChar)
    requires len < str.Length
    modifies str
    ensures str[..] == Set(old(str[..]), len, c)
  {
    var i := 0;
    while i < len
      invariant 0 <= i <= len
      invariant forall k :: 0 <= k < i ==> str[k] == c
      invariant forall k :: i <= k < str.Length ==> str[k] == old(str[k])
    {
      str[i] := c;
      i := i + 1;
    }
    str[len] := NUL;
    assert forall k :: 0 <= k < str.Length ==> str[..][k] == Set(old(str[..]), len, c)[k];
  }

  // ---------------------------------------------------------------- mem_set

  /** `mem_set`, both the byte and the word overload: fill the first `len`
      cells with `c`; no terminator, nothing else changes. */
  method MemSet<T>(mem: array<T>, len: U16, c: T)
    requires len <= mem.Length
    modifies mem
    ensures forall k :: 0 <= k < len ==> mem[k] == c
    ensures forall k :: len <= k < mem.Length ==> mem[k] == old(mem[k])
  {
    var i := 0;
    while i < len
      invariant 0 <= i <= len
      invariant forall k :: 0 <= k < i ==> mem[k] == c
      invariant forall k :: i <= k < mem.Length ==> mem[k] == old(mem[k])
    {
      mem[i] := c;
      i := i + 1;
    }
  }

  // --------------------------------------------------------------- str_copy

  /** How many characters `str_copy` copies: the (wrapped) length of the
      source, clipped at `dest_len`. It writes its terminator at this index. */
  function CopyLen(s: seq<CChar>, destLen: U8): (n: U8)
    requires Terminated(s)
    ensures n <= destLen && n <= Len(s)
  {
    Min(Len8(s), destLen)
  }

  /** The buffer `str_copy` leaves. */
  function Copy(d: seq<CChar>, destLen: U8, s: seq<CChar>): (r: seq<CChar>)
    requires Terminated(s) && CopyLen(s, destLen) < |d|
    ensures |r| == |d|
  {
    var n := CopyLen(s, destLen);
    s[..n] + [NUL] + d[n + 1..]
  }

  /** For a source shorter than 256 characters, `str_copy` leaves the
      source's string cut to `dest_len` characters; when it fits, the copy
      has the source's length and characters. */
  lemma CopyContent(d: seq<CChar>, destLen: U8, s: seq<CChar>)
    requires Terminated(s) && CopyLen(s, destLen) < |d|
    requires Len(s) < 0x100
    ensures Content(Copy(d, destLen, s)) == Content(s)[..Min(Len(s), destLen)]
    ensures Len(s) <= destLen ==> Content(Copy(d, destLen, s)) == Content(s)
  {
    var n := CopyLen(s, destLen);
    assert s[..n] == Content(s)[..n];
    ContentOf(s[..n], d[n + 1..]);
  }

  /** `str_copy`: measure the source, clip the count at `dest_len`, copy that
      many characters and terminate right after them. */
  method StrCopy(dest: array<CChar>, destLen: U8, str: array<CChar>)
    requires dest != str
    requires Terminated(str[..]) && CopyLen(str[..], destLen) < dest.Length
    modifies dest
    ensures dest[..] == Copy(old(dest[..]), destLen, str[..])
  {
    var len := StrLen(str);
    if len > destLen {
      len := destLen;
    }
    var i := 0;
    while i < len
      invariant 0 <= i <= len
      invariant forall k :: 0 <= k < i ==> dest[k] == str[k]
      invariant forall k :: i <= k < dest.Length ==> dest[k] == old(dest[k])
    {
      dest[i] := str[i];
      i := i + 1;
    }
    dest[len] := NUL;
    CopyByCells(old(dest[..]), destLen, str[..], dest[..]);
  }

  /** A buffer that holds the first `CopyLen` source characters, a NUL after
      them and the old cells beyond is `Copy`. */
  lemma CopyByCells(d: seq<CChar>, destLen: U8, s: seq<CChar>, r: seq<CChar>)
    requires Terminated(s) && CopyLen(s, destLen) < |d| == |r|
    requires r[CopyLen(s, destLen)] == NUL
    requires forall k :: 0 <= k < CopyLen(s, destLen) ==> r[k] == s[k]
    requires forall k :: CopyLen(s, destLen) < k < |d| ==> r[k] == d[k]
    ensures r == Copy(d, destLen, s)
  {
    assert forall k :: 0 <= k < |r| ==> r[k] == Copy(d, destLen, s)[k];
  }

  /** The doc-comment of `str_copy` counts the terminator in `dest_len`, yet
      whenever the source has at least `dest_len` characters the terminator
      goes to index `dest_len`, one cell past a buffer of that size: with
      `dest_len` 4 and "abcdef", the write lands at index 4. */
  lemma CopyTerminatorAtCapacity(d: seq<CChar>, destLen: U8, s: seq<CChar>)
    requires Terminated(s) && destLen <= Len(s) < 0x100 && destLen < |d|
    ensures Copy(d, destLen, s)[destLen] == NUL
    ensures Copy(d, destLen, s)[..destLen] == s[..destLen]
    ensures CopyLen(s, destLen) == destLen
  {
    assert Copy(d, destLen, s) == s[..destLen] + [NUL] + d[destLen + 1..];
  }

  /** Hence no buffer of exactly `dest_len` cells can take such a copy: the
      as-written `str_copy` needs a cell beyond it. */
  lemma CopyOverrunsCapacity(s: seq<CChar>, destLen: U8, size: nat)
    requires Terminated(s) && destLen <= Len(s) < 0x100 && size == destLen
    ensures !(CopyLen(s, destLen) < size)
  {
  }

  /** A `str_copy` that keeps to its documented capacity: at most
      `dest_len - 1` characters, then the terminator; nothing for a
      `dest_len` of 0. */
  function CopyWithin(d: seq<CChar>, destLen: U8, s: seq<CChar>): (r: seq<CChar>)
    requires Terminated(s) && destLen <= |d|
    ensures |r| == |d|
  {
    if destLen == 0 then d else Copy(d, destLen - 1, s)
  }

  /** `str_copy` writes nothing past its terminator. */
  lemma CopyKeepsTail(d: seq<CChar>, destLen: U8, s: seq<CChar>, m: nat)
    requires Terminated(s) && CopyLen(s, destLen) < m <= |d|
    ensures Copy(d, destLen, s)[m..] == d[m..]
    ensures Copy(d, destLen, s)[CopyLen(s, destLen)] == NUL
  {
    var n := CopyLen(s, destLen);
    assert Copy(d, destLen, s)[m..] == d[n + 1..][m - n - 1..];
  }

  /** With a clip at `m`, `str_copy` stays inside the first `m + 1` cells:
      nothing past them changes and they hold a terminated string, the
      source cut to `m` characters. That is the corrected copy for a
      `dest_len` of `m + 1`. */
  lemma CopyStaysWithin(d: seq<CChar>, m: U8, s: seq<CChar>)
    requires Terminated(s) && m < |d| && m < 0xFF && Len(s) < 0x100
    ensures CopyWithin(d, m + 1, s)[m + 1..] == d[m + 1..]
    ensures Terminated(CopyWithin(d, m + 1, s)[..m + 1])
    ensures Content(CopyWithin(d, m + 1, s)) == Content(s)[..Min(Len(s), m)]
  {
    CopyKeepsTail(d, m, s, m + 1);
    assert Copy(d, m, s)[..m + 1][CopyLen(s, m)] == NUL;
    CopyContent(d, m, s);
  }

  /** The corrected copy writes only inside the first `dest_len` cells, holds
      a string there, and that string is the source cut to `dest_len - 1`
      characters. */
  lemma CopyWithinContent(d: seq<CChar>, destLen: U8, s: seq<CChar>)
    requires Terminated(s) && destLen <= |d| && Len(s) < 0x100
    ensures d[destLen..] == CopyWithin(d, destLen, s)[destLen..]
    ensures destLen > 0 ==> Terminated(CopyWithin(d, destLen, s)[..destLen])
    ensures destLen > 0 ==> Content(CopyWithin(d, destLen, s)) == Content(s)[..Min(Len(s), destLen - 1)]
  {
    if destLen > 0 {
      CopyStaysWithin(d, destLen - 1, s);
    }
  }

  /** `str_copy` with the off-by-one corrected: the as-written copy with one
      cell of `dest_len` kept for the terminator. */
  method StrCopyWithin(dest: array<CChar>, destLen: U8, str: array<CChar>)
    requires dest != str
    requires Terminated(str[..]) && destLen <= dest.Length
    modifies dest
    ensures dest[..] == CopyWithin(old(dest[..]), destLen, str[..])
  {
    if destLen > 0 {
      StrCopy(dest, destLen - 1, str);
    }
  }

  // --------------------------------------------------------------- mem_copy

  /** `mem_copy`: copy `src_len` bytes from `src` to the front of `dest`;
      nothing else changes. */
  method MemCopy(dest: array<U8>, srcLen: U8, src: array<U8>)
    requires dest != src
    requires srcLen <= dest.Length && srcLen <= src.Length
    modifies dest
    ensures dest[..srcLen] == src[..srcLen]
    ensures dest[srcLen..] == old(dest[srcLen..])
  {
    var i := 0;
    while i < srcLen
      invariant 0 <= i <= srcLen
      invariant forall k :: 0 <= k < i ==> dest[k] == src[k]
      invariant forall k :: i <= k < dest.Length ==> dest[k] == old(dest[k])
    {
      dest[i] := src[i];
      i := i + 1;
    }
  }

  // ---------------------------------------------------------------- str_add

  /** Where `str_add` stops copying: `start + len` in `uint8_t`, clipped at
      `dest_len`. */
  function AddEnd(d: seq<CChar>, destLen: U8, s: seq<CChar>): (e: U8)
    requires Terminated(d) && Terminated(s)
    ensures e <= destLen
    ensures Len(d) + Len(s) < 0x100 ==> e == Min(Len(d) + Len(s), destLen)
  {
    Min((Len8(d) + Len8(s)) % 0x100, destLen)
  }

  /** The buffer `str_add` leaves: the characters of `s` in the cells from
      the old terminator up to `AddEnd`, a NUL at `dest_len`, every other
      cell as it was. */
  function Add(d: seq<CChar>, destLen: U8, s: seq<CChar>): (r: seq<CChar>)
    requires Terminated(d) && Terminated(s) && destLen < |d|
    ensures |r| == |d| && Terminated(r) && r[destLen] == NUL
    ensures Len(r) <= destLen
  {
    var start := Len8(d);
    var end := AddEnd(d, destLen, s);
    var r := seq(|d|, i requires 0 <= i < |d| =>
      if i == destLen then NUL else if start <= i < end then s[i - start] else d[i]);
    assert r[destLen] == NUL;
    r
  }

  /** `x` cut to at most `m` characters. */
  function Truncate(x: seq<CChar>, m: nat): seq<CChar>
  {
    x[..Min(|x|, m)]
  }

  /** The cells from the string's terminator up to `dest_len` all hold NUL:
      what appending needs to leave a proper string behind. */
  predicate Cleared(d: seq<CChar>, destLen: U8)
    requires destLen < |d|
  {
    Len(d) <= destLen && forall i :: Len(d) <= i <= destLen ==> d[i] == NUL
  }

  /** When the buffer past the string is cleared and no length wraps,
      `str_add` appends `s`, cut to `dest_len` characters in all, and the
      buffer stays cleared. */
  lemma {:induction false} AddAppends(d: seq<CChar>, destLen: U8, s: seq<CChar>)
    requires Terminated(d) && Terminated(s) && destLen < |d|
    requires Cleared(d, destLen) && Len(d) + Len(s) < 0x100
    ensures Len(Add(d, destLen, s)) == Min(Len(d) + Len(s), destLen)
    ensures Content(Add(d, destLen, s)) == Truncate(Content(d) + Content(s), destLen)
    ensures Cleared(Add(d, destLen, s), destLen)
  {
    assert Min(Len(d) + Len(s), destLen) == AddEnd(d, destLen, s);
    forall i | 0 <= i < AddEnd(d, destLen, s)
      ensures Add(d, destLen, s)[i] == (Content(d) + Content(s))[i] != NUL
    {
      if i < Len(d) {
        assert Add(d, destLen, s)[i] == d[i] == Content(d)[i];
      } else {
        assert Add(d, destLen, s)[i] == s[i - Len(d)] == Content(s)[i - Len(d)];
      }
    }
    LenFromCells(Add(d, destLen, s), AddEnd(d, destLen, s));
    assert Add(d, destLen, s)[..AddEnd(d, destLen, s)] ==
           (Content(d) + Content(s))[..AddEnd(d, destLen, s)];
  }

  /** Appending "abcdef" to "xy" with `dest_len` 4 keeps 4 characters, "xyab",
      and writes the terminator at index 4. */
  lemma AddTruncates(d: seq<CChar>, s: seq<CChar>)
    requires d == "xy\0\0\0" && s == "abcdef\0"
    ensures Content(Add(d, 4, s)) == "xyab"
    ensures Add(d, 4, s)[4] == NUL
  {
    assert Content(s) == "abcdef" by {
      assert s == "abcdef" + [NUL] + [];
      ContentOf("abcdef", []);
    }
    assert Content(d) == "xy" by {
      assert d == "xy" + [NUL] + "\0\0";
      ContentOf("xy", "\0\0");
    }
    assert AddEnd(d, 4, s) == 4;
    assert Add(d, 4, s) == "xyab" + [NUL] + [];
    ContentOf("xyab", []);
  }

  /** `str_add` terminates at `dest_len`, not after what it copied: a stale
      character between the two stays part of the string. */
  lemma AddKeepsStaleCells(d: seq<CChar>, s: seq<CChar>)
    requires d == "x\0z\0" && s == "a\0"
    ensures Content(Add(d, 3, s)) == "xaz"
    ensures Content(d) + Content(s) == "xa"
  {
    assert Content(s) == "a" by {
      assert s == "a" + [NUL] + [];
      ContentOf("a", []);
    }
    assert Content(d) == "x" by {
      assert d == "x" + [NUL] + "z\0";
      ContentOf("x", "z\0");
    }
    var r := Add(d, 3, s);
    assert r == "xaz" + [NUL] + [];
    ContentOf("xaz", []);
  }

  /** `str_add`: find both lengths, copy the source into the cells after the
      destination's terminator up to the clipped end, and terminate at
      `dest_len`. */
  method StrAdd(dest: array<CChar>, destLen: U8, str: array<CChar>)
    requires dest != str
    requires Terminated(dest[..]) && Terminated(str[..]) && destLen < dest.Length
    modifies dest
    ensures dest[..] == Add(old(dest[..]), destLen, str[..])
  {
    ghost var d0, s0 := dest[..], str[..];
    var len := StrLen(str);
    var start := StrLen(dest);
    var end: U8 := (start + len) % 0x100;
    if end > destLen {
      end := destLen;
    }
    assert end == AddEnd(d0, destLen, s0);
    var i := start;
    while i < end
      invariant start <= i && (i <= end || i == start) && i <= start + len
      invariant forall k :: start <= k < i ==> dest[k] == s0[k - start]
      invariant forall k :: 0 <= k < dest.Length && !(start <= k < i) ==> dest[k] == d0[k]
    {
      dest[i] := str[i - start];
      i := i + 1;
    }
    dest[destLen] := NUL;
    AddByCells(d0, destLen, s0, dest[..]);
  }

  /** A buffer that agrees with `Add` cell by cell is `Add`. */
  lemma AddByCells(d: seq<CChar>, destLen: U8, s: seq<CChar>, r: seq<CChar>)
    requires Terminated(d) && Terminated(s) && destLen < |d| && |r| == |d|
    requires r[destLen] == NUL
    requires forall k :: Len8(d) <= k < AddEnd(d, destLen, s) ==> r[k] == s[k - Len8(d)]
    requires forall k :: 0 <= k < |d| && k != destLen && !(Len8(d) <= k < AddEnd(d, destLen, s)) ==> r[k] == d[k]
    ensures r == Add(d, destLen, s)
  {
    assert forall k :: 0 <= k < |d| ==> r[k] == Add(d, destLen, s)[k];
  }
}
