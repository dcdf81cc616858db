/** The read-only routines of src/strings.cpp: length, equality, search and
    decimal parsing. Each is a method over the caller's buffers, proved equal
    to a pure function that states what it computes. */
module StringQueries {
  import opened CString

  // ---------------------------------------------------------------- str_len

  /** What `str_len` returns: the distance to the first NUL, counted in a
      `uint8_t` that wraps at 256. */
  function Len8(s: seq<CChar>): (n: U8)
    ensures n <= Len(s)
    ensures Len(s) < 0x100 ==> n == Len(s)
  {
    Len(s) % 0x100
  }

  /** `str_len`: walk to the terminator, counting in a `uint8_t`. */
  method StrLen(str: array<CChar>) returns (len: U8)
    requires Terminated(str[..])
    ensures len == Len8(str[..])
    ensures Len(str[..]) < 0x100 ==> str[len] == NUL && forall i :: 0 <= i < len ==> str[i] != NUL
  {
    len := 0;
    var p := 0;
    while str[p] != NUL
      invariant 0 <= p <= Len(str[..]) < str.Length
      invariant len == p % 0x100
      decreases Len(str[..]) - p
    {
      assert str[..][p] != NUL;
      len := (len + 1) % 0x100;
      p := p + 1;
    }
    assert str[..][p] == NUL;
  }

  // ------------------------------------------------------------ str_compare

  /** What `str_compare` decides: equal (wrapped) lengths and equal characters
      before that length. */
  predicate Compare(a: seq<CChar>, b: seq<CChar>)
    requires Terminated(a) && Terminated(b)
  {
    Len8(a) == Len8(b) && forall i :: 0 <= i < Len8(a) ==> a[i] == b[i]
  }

  /** `str_compare`: compare the lengths, then the characters one by one. */
  method StrCompare(str1: array<CChar>, str2: array<CChar>) returns (equal: bool)
    requires Terminated(str1[..]) && Terminated(str2[..])
    ensures equal == Compare(str1[..], str2[..])
  {
    var len1 := StrLen(str1);
    var len2 := StrLen(str2);
    if len1 != len2 {
      return false;
    }
    var i := 0;
    while i < len1
      invariant 0 <= i <= len1
      invariant forall k :: 0 <= k < i ==> str1[k] == str2[k]
    {
      if str1[i] != str2[i] {
        return false;
      }
      i := i + 1;
    }
    return true;
  }

  /** For strings shorter than 256 characters, `str_compare` is exactly
      equality of the strings the two buffers hold. */
  lemma {:induction false} CompareIsContentEquality(a: seq<CChar>, b: seq<CChar>)
    requires Terminated(a) && Terminated(b)
    requires Len(a) < 0x100 && Len(b) < 0x100
    ensures Compare(a, b) <==> Content(a) == Content(b)
  {
    if Content(a) == Content(b) {
      forall i | 0 <= i < Len8(a) ensures a[i] == b[i] {
        assert a[i] == Content(a)[i] && b[i] == Content(b)[i];
      }
    }
    if Compare(a, b) {
      assert forall i :: 0 <= i < Len(a) ==> Content(a)[i] == Content(b)[i];
    }
  }

  lemma CompareReflexive(a: seq<CChar>)
    requires Terminated(a)
    ensures Compare(a, a)
  {
  }

  lemma CompareSymmetric(a: seq<CChar>, b: seq<CChar>)
    requires Terminated(a) && Terminated(b)
    ensures Compare(a, b) == Compare(b, a)
  {
  }

  /** Because the lengths are `uint8_t`, a 256-character string compares equal
      to the empty string. */
  lemma CompareWrapsAt256(a: seq<CChar>, b: seq<CChar>)
    requires a == seq(0x100, _ => 'x') + [NUL] && b == [NUL]
    ensures Compare(a, b)
    ensures Content(a) != Content(b)
  {
    ContentOf(seq(0x100, _ => 'x'), []);
    ContentOf([], []);
    assert b == [] + [NUL] + [];
    assert a == seq(0x100, _ => 'x') + [NUL] + [];
  }

  // --------------------------------------------------------------- str_find

  /** The first `n` characters of `f` occur in `s` at index `i`, with `n > 0`:
      what the inner loop of `str_find` accepts. */
  predicate Occurs(s: seq<CChar>, f: seq<CChar>, i: nat, n: nat)
  {
    0 < n <= |f| && i + n <= |s| && forall k :: 0 <= k < n ==> s[i + k] == f[k]
  }

  /** The index the outer loop of `str_find` returns when it scans `[i, len)`
      for the first `n` characters of `f`: the first hit, or 0 when there is
      none. */
  function FindFrom(s: seq<CChar>, f: seq<CChar>, i: nat, len: nat, n: nat): (r: nat)
    decreases len - i
    ensures (exists j :: i <= j < len && Occurs(s, f, j, n)) ==>
              i <= r < len && Occurs(s, f, r, n) &&
              forall j :: i <= j < r ==> !Occurs(s, f, j, n)
    ensures (forall j :: i <= j < len ==> !Occurs(s, f, j, n)) ==> r == 0
  {
    if i >= len then 0
    else if Occurs(s, f, i, n) then i
    else FindFrom(s, f, i + 1, len, n)
  }

  /** What `str_find(str, find, start)` returns. */
  function Find(s: seq<CChar>, f: seq<CChar>, start: U8): (r: nat)
    requires Terminated(s) && Terminated(f)
    ensures start >= Len8(s) ==> r == 0
    ensures Len8(f) == 0 ==> r == 0
    ensures r < 0x100
  {
    if start >= Len8(s) then 0 else FindFrom(s, f, start, Len8(s), Len8(f))
  }

  /** A match found by `str_find` lies inside the string: every compared
      character of `find` is non-NUL, so the comparison cannot run past the
      terminator of `str`. */
  lemma {:induction false} OccursWithinContent(s: seq<CChar>, f: seq<CChar>, i: nat, n: nat)
    requires Terminated(s) && Terminated(f)
    requires n <= Len(f) && i <= Len(s)
    requires Occurs(s, f, i, n)
    ensures i + n <= Len(s)
    ensures Content(s)[i..i + n] == f[..n]
  {
    forall j | 0 <= j < i + n ensures s[j] != NUL {
      if j >= i {
        assert s[j] == f[j - i];
      }
    }
    forall k | 0 <= k < n ensures Content(s)[i..i + n][k] == f[..n][k] {
      assert Content(s)[i..i + n][k] == s[i + k];
    }
  }

  /** All of the string `f` holds occurs in the string `s` holds, at index `j`. */
  predicate OccursIn(s: seq<CChar>, f: seq<CChar>, j: nat)
  {
    j + Len(f) <= Len(s) && Content(s)[j..j + Len(f)] == Content(f)
  }

  /** For strings shorter than 256 characters and a non-empty `find`,
      `str_find` returns the first index in `[start, len)` at which `find`
      occurs in `str`, and 0 when there is none (so 0 is ambiguous). */
  lemma {:induction false} FindIsFirstOccurrence(s: seq<CChar>, f: seq<CChar>, start: U8)
    requires Terminated(s) && Terminated(f)
    requires Len(s) < 0x100 && 0 < Len(f) < 0x100
    ensures (exists j :: start <= j < Len(s) && OccursIn(s, f, j)) ==>
              var r := Find(s, f, start);
              start <= r && OccursIn(s, f, r) && forall j :: start <= j < r ==> !OccursIn(s, f, j)
    ensures (forall j :: start <= j < Len(s) ==> !OccursIn(s, f, j)) ==> Find(s, f, start) == 0
  {
    var n := Len(f);
    forall j: nat | j < Len(s) ensures OccursIn(s, f, j) <==> Occurs(s, f, j, n) {
      if Occurs(s, f, j, n) {
        OccursWithinContent(s, f, j, n);
      }
      if OccursIn(s, f, j) {
        forall k | 0 <= k < n ensures s[j + k] == f[k] {
          assert s[j + k] == Content(s)[j..j + n][k];
          assert f[k] == Content(f)[k];
        }
      }
    }
  }

  /** One more matching character extends a match inside `str`'s string:
      the character is not NUL, so the match has not reached the
      terminator. */
  lemma MatchStep(s: seq<CChar>, f: seq<CChar>, i: nat, j: nat)
    requires Terminated(s) && j < Len(f) && i + j <= Len(s) && i + j < |s|
    requires j == 0 || Occurs(s, f, i, j)
    requires s[i + j] == f[j]
    ensures i + j + 1 <= Len(s) && Occurs(s, f, i, j + 1)
  {
    assert s[i + j] != NUL;
  }

  /** `str_find(str, find, start)`: for each `i` in `[start, len)`, compare
      `find` against `str` from `i` and return the first `i` that matches. */
  method StrFindFrom(str: array<CChar>, find: array<CChar>, start: U8) returns (r: U16)
    requires Terminated(str[..]) && Terminated(find[..])
    ensures r == Find(str[..], find[..], start)
  {
    var len := StrLen(str);
    if start >= len {
      return 0;
    }
    var findLen := StrLen(find);
    ghost var s, f := str[..], find[..];
    var i: U8 := start;
    while i < len
      invariant start <= i <= len
      invariant forall j :: start <= j < i ==> !Occurs(s, f, j, findLen)
    {
      if str[i] == find[0] {
        var j: U8 := 0;
        while j < findLen
          invariant 0 <= j <= findLen
          invariant findLen == 0 || j < findLen
          invariant i + j <= Len(s)
          invariant j == 0 || Occurs(s, f, i, j)
        {
          if str[i + j] != find[j] {
            assert !Occurs(s, f, i, findLen) by {
              assert s[i + j] != f[j];
            }
            break;
          }
          MatchStep(s, f, i, j);
          if j == findLen - 1 {
            return i;
          }
          j := j + 1;
        }
        assert !Occurs(s, f, i, findLen);
      } else {
        assert s[i + 0] != f[0];
      }
      i := i + 1;
    }
    return 0;
  }

  /** `str_find(str, find)`: the search from index 0. */
  method StrFind(str: array<CChar>, find: array<CChar>) returns (r: U16)
    requires Terminated(str[..]) && Terminated(find[..])
    ensures r == Find(str[..], find[..], 0)
  {
    r := StrFindFrom(str, find, 0);
  }

  // ------------------------------------------------------------------- stoi

  /** The value of a plain `char`, which is signed on the target. */
  function CharValue(c: CChar): (v: int)
    ensures -0x80 <= v < 0x80
    ensures '0' <= c <= '9' ==> v == c as int
  {
    if c as int < 0x80 then c as int else c as int - 0x100
  }

  /** What `stoi` computes over the characters `cs`: the left fold
      `num * 10 + (c - '0')` in `uint16_t` arithmetic. */
  function StoiOf(cs: seq<CChar>): U16
  {
    if cs == [] then 0
    else (StoiOf(cs[..|cs| - 1]) * 10 + CharValue(cs[|cs| - 1]) - '0' as int) % 0x1_0000
  }

  predicate IsDigit(c: CChar)
  {
    '0' <= c <= '9'
  }

  /** The mathematical value of a string of decimal digits. */
  function DecimalValue(ds: seq<CChar>): nat
    requires forall i :: 0 <= i < |ds| ==> IsDigit(ds[i])
  {
    if ds == [] then 0
    else assert IsDigit(ds[|ds| - 1]); DecimalValue(ds[..|ds| - 1]) * 10 + (ds[|ds| - 1] as int - '0' as int)
  }

  /** Reducing the accumulator modulo 2^16 before the next step does not
      change the reduced result. */
  lemma ModMulAdd(a: int, b: int)
    ensures ((a % 0x1_0000) * 10 + b) % 0x1_0000 == (a * 10 + b) % 0x1_0000
  {
  }

  /** `num *= 10` wraps before `num += c - '0'` does; wrapping once at the
      end gives the same `uint16_t`. */
  lemma ModAdd(x: int, b: int)
    ensures ((x % 0x1_0000) + b) % 0x1_0000 == (x + b) % 0x1_0000
  {
  }

  /** On a string of decimal digits, `stoi` is the decimal value modulo 2^16. */
  lemma {:induction false} StoiOfDigits(ds: seq<CChar>)
    requires forall i :: 0 <= i < |ds| ==> IsDigit(ds[i])
    ensures StoiOf(ds) == DecimalValue(ds) % 0x1_0000
  {
    if ds != [] {
      var init := ds[..|ds| - 1];
      StoiOfDigits(init);
      ModMulAdd(DecimalValue(init), ds[|ds| - 1] as int - '0' as int);
    }
  }

  /** The decimal digits of `n`, most significant first, without leading
      zeros: a reference rendering to read `stoi` against. */
  function Decimal(n: nat): (ds: seq<CChar>)
    ensures |ds| > 0 && forall i :: 0 <= i < |ds| ==> IsDigit(ds[i])
    ensures DecimalValue(ds) == n
  {
    var d: CChar := ('0' as int + n % 10) as char;
    if n < 10 then
      assert [d][..0] == [];
      [d]
    else
      var ds := Decimal(n / 10) + [d];
      assert ds[..|ds| - 1] == Decimal(n / 10);
      ds
  }

  /** Parsing the decimal rendering of any `uint16_t` value gives the value
      back. */
  lemma StoiRoundTrip(n: U16)
    ensures StoiOf(Decimal(n)) == n
  {
    StoiOfDigits(Decimal(n));
  }

  /** `stoi`: fold the characters before the terminator into a `uint16_t`. */
  method Stoi(str: array<CChar>) returns (num: U16)
    requires Terminated(str[..])
    ensures num == StoiOf(Content(str[..]))
    ensures Len(str[..]) == 0 ==> num == 0
  {
    num := 0;
    var p := 0;
    while str[p] != NUL
      invariant 0 <= p <= Len(str[..]) < str.Length
      invariant num == StoiOf(str[..p])
      decreases Len(str[..]) - p
    {
      assert str[..][p] != NUL;
      assert str[..p + 1][..p] == str[..p];
      ModAdd(num * 10, CharValue(str[p]) - '0' as int);
      num := num * 10 % 0x1_0000;
      num := (num + CharValue(str[p]) - '0' as int) % 0x1_0000;
      p := p + 1;
    }
    assert str[..][p] == NUL;
    assert str[..p] == Content(str[..]);
  }
}
