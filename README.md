# Freestanding C-string and buffer routines for an 8-bit AVR target, in Dafny

The library is a flat set of C++ routines over caller-owned `char`/`uint8_t`/`uint16_t`
buffers, written for the AVR target:

- `str_len`, `str_compare` and `str_find` (two overloads) measure and search strings.
- `str_cut`, `str_set`, `str_copy` and `str_add` write strings into a destination buffer.
- `mem_set` (byte and word overloads) and `mem_copy` fill and copy raw memory.
- `stoi` parses a decimal string into a `uint16_t`.
- The header templates `btos<T>` and `str_concat<Args...>` write the bits of a number as text and append several strings.

This project models those routines and proves what they compute.

A buffer is an `array<CChar>`, where `CChar` is a Dafny `char` below 256 (one byte). Raw memory is an
`array<U8>` or `array<U16>`. The string a buffer holds is its prefix before the first NUL
(`CString.Content`; its length is `CString.Len`). Every `uint8_t`/`uint16_t` computation of the
source is written out with its wrap-around:

- `str_len` counts in a `uint8_t`, so it returns the length mod 256 (`Len8`).
- `end - start` in `str_cut` and `start + len` in `str_add` wrap at 256.
- `stoi` wraps at 65536.

Plain `char` is signed on avr-gcc, so `c - '0'` in `stoi` uses the signed byte value (`CharValue`).

Each routine is a Dafny method over arrays with the source's own loop and loop invariants.

- A read-only routine returns exactly a pure function of the buffers: `Len8`, `Compare`, `Find` or `StoiOf`.
- A string-writing routine leaves the buffer equal to a pure function of its old contents: `Cut`, `Set`, `Copy`, `Add`, `BitString` (followed by a NUL) or `AddAll`. The corrected copy `StrCopyWithin` uses `CopyWithin`.
- `MemSet` and `MemCopy` have no such function: their `ensures` give the new cells directly.
- Lemmas about those functions state what string each routine leaves or finds.

Modules:

- `CString` (cstring.dfy) holds the byte, integer and C-string vocabulary.
- `StringQueries` (strings_query.dfy) and `StringWriters` (strings_write.dfy) cover src/strings.cpp.
- `Templates` (templates.dfy) covers include/strings.h.

Behaviour of the code that the model keeps as it is:

- `str_add` always writes its terminator at `dest_len`, not after the characters it copied. A stale non-NUL cell directly after the copied characters therefore joins the string, together with any non-NUL cells that follow it up to the next NUL (`AddKeepsStaleCells`). `AddAppends` proves plain concatenation when every cell from the old terminator up to `dest_len` is NUL; that condition is sufficient, not necessary.
- With `dest_len` 4, appending "abcdef" to "xy" keeps four characters, "xyab". The terminator goes to index 4, so the buffer needs five cells (`AddTruncates`).
- The doc-comment of `btos` says most significant bit first. The loop writes bit `i` to `str[i]`, least significant first, and the model follows the loop (`BitStringOfFive`).
- `str_find` returns 0 both for a hit at index 0 and for no hit (`FindIsFirstOccurrence`).
- `str_compare` compares `uint8_t` lengths. A 256-character string therefore equals the empty string (`CompareWrapsAt256`).
- `str_cut` does not require `start <= end`. It copies `(end - start) mod 256` characters (`CutLen`).

## Model

| member | source | states |
|---|---|---|
| `CString.Len` | src/strings.cpp:93-98 | the index of the first NUL: every earlier cell is non-NUL, the cell there is NUL, and it is below the buffer size exactly when the buffer holds a NUL |
| `CString.Content` | src/strings.cpp:93-98 | the string a buffer holds: NUL-free, `Len` characters long, a prefix of the buffer followed by a NUL when terminated |
| `StringQueries.Len8` | src/strings.cpp:93-98 | `str_len`'s result; never more than the true length, and equal to it for strings shorter than 256 characters |
| `StringQueries.StrLen` | src/strings.cpp:93-98 | returns the length mod 256; for strings shorter than 256 characters `str[len]` is NUL and every earlier cell is not |
| `StringQueries.StrCompare` | src/strings.cpp:113-125 | returns true iff the `uint8_t` lengths agree and every character before that length agrees |
| `StringQueries.CompareIsContentEquality` | src/strings.cpp:113-125 | for strings shorter than 256 characters, `str_compare` is true iff the two strings are equal (both directions) |
| `StringQueries.CompareReflexive` | src/strings.cpp:113-125 | every string compares equal to itself |
| `StringQueries.CompareSymmetric` | src/strings.cpp:113-125 | swapping the arguments does not change the answer |
| `StringQueries.CompareWrapsAt256` | src/strings.cpp:114-118 | a 256-character string compares equal to the empty string although the strings differ |
| `StringQueries.FindFrom` | src/strings.cpp:8-18 | the scan of `[i, len)` returns the first index at which the first `n` characters of `find` occur, with none before it, and 0 when there is no such index |
| `StringQueries.Find` | src/strings.cpp:3-18 | 0 whenever `start >= str_len(str)`; 0 for an empty `find`, whose inner loop never runs; the result is always below 256 |
| `StringQueries.OccursWithinContent` | src/strings.cpp:9-15 | a match of the non-NUL characters of `find` ends at or before `str`'s terminator and equals that slice of `str`'s string, so the comparison never reads past the terminator |
| `StringQueries.FindIsFirstOccurrence` | src/strings.cpp:3-19 | for strings shorter than 256 characters and non-empty `find`: if `find` occurs in `str` at or after `start`, the result is the first such index; if not, the result is 0 |
| `StringQueries.StrFindFrom` | src/strings.cpp:3-19 | `str_find(str, find, start)` returns `Find` of the two buffers |
| `StringQueries.StrFind` | src/strings.cpp:21-23 | `str_find(str, find)` returns the search from index 0 |
| `StringQueries.CharValue` | src/strings.cpp:268 | a plain `char` read as a signed byte; a digit keeps its code |
| `StringQueries.StoiOfDigits` | src/strings.cpp:264-272 | on a string of decimal digits `stoi` yields its decimal value mod 65536 |
| `StringQueries.StoiRoundTrip` | src/strings.cpp:264-272 | parsing the decimal rendering of any `uint16_t` gives that value back |
| `StringQueries.Stoi` | src/strings.cpp:264-272 | returns the left fold `num * 10 + (c - '0')` mod 65536 over the characters before the NUL; 0 for the empty string |
| `StringWriters.CutLen` | src/strings.cpp:39 | the copied count is `end - start` when `start <= end` |
| `StringWriters.Cut` | src/strings.cpp:38-43 | the buffer `str_cut` leaves keeps its size |
| `StringWriters.CutContent` | src/strings.cpp:38-43 | when the slice holds no NUL, the destination then holds exactly `str[start..start+n)` and has length `end - start` when `start <= end` |
| `StringWriters.CutHelloWorld` | src/strings.cpp:38-43 | cutting `[6, 11)` from "hello world" leaves "world" |
| `StringWriters.StrCut` | src/strings.cpp:38-43 | `dest` becomes the slice of the old `str`, a NUL at index `n`, and its old cells past `n`; this holds also when `dest` and `str` are one buffer (an in-place cut) |
| `StringWriters.Set` | src/strings.cpp:56-61 | the buffer `str_set` leaves keeps its size |
| `StringWriters.SetContent` | src/strings.cpp:56-61 | with a non-NUL `c` the string left is exactly `len` copies of `c`; with NUL it is empty |
| `StringWriters.StrSet` | src/strings.cpp:56-61 | cells `[0, len)` become `c`, `str[len]` becomes NUL, later cells are unchanged |
| `StringWriters.MemSet` | src/strings.cpp:73-81 | cells `[0, len)` become `c` and every other cell is unchanged (no terminator) |
| `StringWriters.CopyLen` | src/strings.cpp:142-144 | the copied count is at most `dest_len` and at most the source's length |
| `StringWriters.Copy` | src/strings.cpp:141-150 | the buffer `str_copy` leaves keeps its size |
| `StringWriters.CopyContent` | src/strings.cpp:141-150 | for sources shorter than 256 characters the copy is the source's string cut to `dest_len` characters; untruncated, it has the source's length and characters |
| `StringWriters.StrCopy` | src/strings.cpp:141-150 | `dest` becomes the first `n = min(str_len(str), dest_len)` characters of `str`, a NUL at index `n`, its old cells past `n` |
| `StringWriters.CopyKeepsTail` | src/strings.cpp:141-150 | `str_copy` puts its NUL at index `n` and changes no cell past it |
| `StringWriters.CopyTerminatorAtCapacity` | src/strings.cpp:135-149 | whenever the source has at least `dest_len` characters, the buffer `str_copy` leaves holds the first `dest_len` source characters and a NUL at index `dest_len`, one cell past a buffer of the documented size |
| `StringWriters.CopyOverrunsCapacity` | src/strings.cpp:135-149 | for such a source, a buffer of exactly `dest_len` cells is too small for the as-written copy |
| `StringWriters.CopyWithin` | src/strings.cpp:135-137 | the corrected copy keeps the buffer's size; it is the as-written copy with `dest_len - 1`, and leaves the buffer alone for `dest_len` 0 |
| `StringWriters.CopyStaysWithin` | src/strings.cpp:141-150 | clipped at `m`, the as-written copy changes no cell past index `m`, holds a terminated string in the first `m + 1` cells, and that string is the source cut to `m` characters |
| `StringWriters.CopyWithinContent` | src/strings.cpp:135-137 | the corrected copy changes no cell at or past `dest_len`, holds a terminated string within the first `dest_len` cells, and that string is the source cut to `dest_len - 1` characters |
| `StringWriters.StrCopyWithin` | src/strings.cpp:135-137 | the corrected `str_copy` leaves `CopyWithin` of the old buffer |
| `StringWriters.MemCopy` | src/strings.cpp:164-167 | `dest[0, src_len)` equals `src[0, src_len)` and every later cell is unchanged |
| `StringWriters.AddEnd` | src/strings.cpp:170-174 | the copy stops at or before `dest_len`; without wrap-around it stops at `min(len(dest) + len(str), dest_len)` |
| `StringWriters.Add` | src/strings.cpp:169-180 | the buffer `str_add` leaves is terminated, NUL at `dest_len`, and its string is at most `dest_len` characters long |
| `StringWriters.AddAppends` | src/strings.cpp:169-180 | with NUL cells from the terminator up to `dest_len` and no wrap-around, the result holds the old string followed by `str`, cut to `dest_len` characters, and stays cleared |
| `StringWriters.AddTruncates` | src/strings.cpp:169-180 | appending "abcdef" to "xy" with `dest_len` 4 leaves "xyab" with its NUL at index 4 |
| `StringWriters.AddKeepsStaleCells` | src/strings.cpp:176-179 | appending "a" to "x" over a stale "z" with `dest_len` 3 leaves "xaz", not "xa" |
| `StringWriters.StrAdd` | src/strings.cpp:169-180 | `dest` becomes `Add` of its old contents: `str`'s characters in `[start, end)`, NUL at `dest_len`, every other cell unchanged |
| `Templates.BitString` | include/strings.h:33-36 | `btos` writes `8*sizeof(T)` characters, each '0' or '1', none NUL |
| `Templates.BitStringValue` | include/strings.h:30-39 | reading the written characters back, least significant first, gives `num` mod 2^width |
| `Templates.BitStringRoundTrip` | include/strings.h:30-39 | for `num` of the template's type the written characters stand for exactly `num` |
| `Templates.BitStringOfFive` | include/strings.h:18-36 | for the 8-bit value 5 `btos` writes "10100000": bit 0 first, contrary to the doc-comment |
| `Templates.Btos` | include/strings.h:30-39 | `str[i]` is '1' iff bit `i` of `num` is set, `str[width]` is NUL, no later cell changes |
| `Templates.AddAll` | include/strings.h:55-59 | the result of the successive `str_add` calls is terminated; with at least one argument it has a NUL at `dest_len` and a string of at most `dest_len` characters; no cell past `dest_len` changes |
| `Templates.AddAllSingle` | include/strings.h:55-59 | with one argument `str_concat` is `str_add` |
| `Templates.AddAllAppends` | include/strings.h:41-59 | with cleared cells and a total length below 256, the result is the old string followed by every argument in order, cut to `dest_len` characters |
| `Templates.StrConcat` | include/strings.h:55-59 | `dest` becomes what `str_add` of each argument in argument order leaves; with no argument it is unchanged and need not be terminated |

## Findings

| source | as written | input that shows it | evidently intended | confidence | as-written member | corrected member |
|---|---|---|---|---|---|---|
| src/strings.cpp:135-149 | `str_copy` clips the count at `dest_len` and then writes the terminator at `dest[len]`, which is `dest[dest_len]` whenever the source is at least `dest_len` long | `dest_len` = 4 with a 4-cell buffer (the doc-comment counts the terminator in `dest_len`) and `str` = "abcdef": the NUL is written to `dest[4]`, past the buffer | copy at most `dest_len - 1` characters so that the terminator stays inside `dest_len` cells | medium, not executed | `StringWriters.CopyTerminatorAtCapacity` | `StringWriters.StrCopyWithin` |

`StringWriters.StrCopy` models the code as written, and its precondition asks for a buffer of
`min(len, dest_len) + 1` cells. `StringWriters.StrCopyWithin` is the corrected copy, and
`StringWriters.CopyWithinContent` states its property. Nothing else in the library calls `str_copy`.

## Left out

- `ftos` (src/strings.cpp:195-262) is left out. Its range checks, truncations and fractional digits are float arithmetic. `StringQueries.Decimal` is only a reference rendering of non-negative integers, used to state the `stoi` round trip.
- `#include <avr/io.h>` supplies only the integer typedefs. `U8` and `U16` stand in for them.
- Overlapping buffers are not modelled for `str_copy`, `str_add`, `mem_copy` and the `str_concat` arguments. These require the destination to be a different array from the source. `str_cut` is modelled with `dest` and `str` allowed to be the same buffer, because its forward loop reads each cell before it writes over it.
- Unterminated strings are not modelled. `str_len`, `str_compare`, `str_find`, `stoi`, `str_copy`, `str_add` and `str_concat` require their strings to hold a NUL, because the code reads until it meets one.
- `btos` is modelled for the widths 8 and 16 only. `1 << i` is a 16-bit `int` on the target, and for `i` = 15 it overflows in C. The model tests bit `i` of `num` as `(num / 2^i) % 2 == 1`, which is what the mask test selects on the target.
- `str_concat`'s variadic template is not modelled as such. It is a method over a sequence of argument buffers; only its left-to-right fold over `str_add` is modelled.
- Pointers are modelled as array indices. `*str++` walks become indexed reads, and no address arithmetic is modelled.
- `mem_copy` is modelled on `uint8_t` buffers only, as in the source. `mem_set` is one generic method that stands for both of its overloads.
