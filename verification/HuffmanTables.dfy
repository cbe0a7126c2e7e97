/** The Huffman code of Appendix B of RFC 7541: the code of every symbol, and the canonical
    decoding tables. Each table is a function written eight entries to a row. */
module HuffmanTables {

  const EOS := 256

  const MAX_BITS := 30

  function Row(i: int, a: int, b: int, c: int, d: int, e: int, f: int, g: int, h: int): int {
    if i < 4 then
      if i < 2 then (if i < 1 then a else b) else (if i < 3 then c else d)
    else
      if i < 6 then (if i < 5 then e else f) else (if i < 7 then g else h)
  }

  function Code0(i: int): int {
    if i < 8 then Row(i - 0, 0x1ff8, 0x7fffd8, 0xfffffe2, 0xfffffe3, 0xfffffe4, 0xfffffe5, 0xfffffe6, 0xfffffe7)
    else if i < 16 then Row(i - 8, 0xfffffe8, 0xffffea, 0x3ffffffc, 0xfffffe9, 0xfffffea, 0x3ffffffd, 0xfffffeb, 0xfffffec)
    else if i < 24 then Row(i - 16, 0xfffffed, 0xfffffee, 0xfffffef, 0xffffff0, 0xffffff1, 0xffffff2, 0x3ffffffe, 0xffffff3)
    else if i < 32 then Row(i - 24, 0xffffff4, 0xffffff5, 0xffffff6, 0xffffff7, 0xffffff8, 0xffffff9, 0xffffffa, 0xffffffb)
    else if i < 40 then Row(i - 32, 0x14, 0x3f8, 0x3f9, 0xffa, 0x1ff9, 0x15, 0xf8, 0x7fa)
    else if i < 48 then Row(i - 40, 0x3fa, 0x3fb, 0xf9, 0x7fb, 0xfa, 0x16, 0x17, 0x18)
    else if i < 56 then Row(i - 48, 0x0, 0x1, 0x2, 0x19, 0x1a, 0x1b, 0x1c, 0x1d)
    else Row(i - 56, 0x1e, 0x1f, 0x5c, 0xfb, 0x7ffc, 0x20, 0xffb, 0x3fc)
  }

  function Code1(i: int): int {
    if i < 72 then Row(i - 64, 0x1ffa, 0x21, 0x5d, 0x5e, 0x5f, 0x60, 0x61, 0x62)
    else if i < 80 then Row(i - 72, 0x63, 0x64, 0x65, 0x66, 0x67, 0x68, 0x69, 0x6a)
    else if i < 88 then Row(i - 80, 0x6b, 0x6c, 0x6d, 0x6e, 0x6f, 0x70, 0x71, 0x72)
    else if i < 96 then Row(i - 88, 0xfc, 0x73, 0xfd, 0x1ffb, 0x7fff0, 0x1ffc, 0x3ffc, 0x22)
    else if i < 104 then Row(i - 96, 0x7ffd, 0x3, 0x23, 0x4, 0x24, 0x5, 0x25, 0x26)
    else if i < 112 then Row(i - 104, 0x27, 0x6, 0x74, 0x75, 0x28, 0x29, 0x2a, 0x7)
    else if i < 120 then Row(i - 112, 0x2b, 0x76, 0x2c, 0x8, 0x9, 0x2d, 0x77, 0x78)
    else Row(i - 120, 0x79, 0x7a, 0x7b, 0x7ffe, 0x7fc, 0x3ffd, 0x1ffd, 0xffffffc)
  }

  function Code2(i: int): int {
    if i < 136 then Row(i - 128, 0xfffe6, 0x3fffd2, 0xfffe7, 0xfffe8, 0x3fffd3, 0x3fffd4, 0x3fffd5, 0x7fffd9)
    else if i < 144 then Row(i - 136, 0x3fffd6, 0x7fffda, 0x7fffdb, 0x7fffdc, 0x7fffdd, 0x7fffde, 0xffffeb, 0x7fffdf)
    else if i < 152 then Row(i - 144, 0xffffec, 0xffffed, 0x3fffd7, 0x7fffe0, 0xffffee, 0x7fffe1, 0x7fffe2, 0x7fffe3)
    else if i < 160 then Row(i - 152, 0x7fffe4, 0x1fffdc, 0x3fffd8, 0x7fffe5, 0x3fffd9, 0x7fffe6, 0x7fffe7, 0xffffef)
    else if i < 168 then Row(i - 160, 0x3fffda, 0x1fffdd, 0xfffe9, 0x3fffdb, 0x3fffdc, 0x7fffe8, 0x7fffe9, 0x1fffde)
    else if i < 176 then Row(i - 168, 0x7fffea, 0x3fffdd, 0x3fffde, 0xfffff0, 0x1fffdf, 0x3fffdf, 0x7fffeb, 0x7fffec)
    else if i < 184 then Row(i - 176, 0x1fffe0, 0x1fffe1, 0x3fffe0, 0x1fffe2, 0x7fffed, 0x3fffe1, 0x7fffee, 0x7fffef)
    else Row(i - 184, 0xfffea, 0x3fffe2, 0x3fffe3, 0x3fffe4, 0x7ffff0, 0x3fffe5, 0x3fffe6, 0x7ffff1)
  }

  function Code3(i: int): int {
    if i < 200 then Row(i - 192, 0x3ffffe0, 0x3ffffe1, 0xfffeb, 0x7fff1, 0x3fffe7, 0x7ffff2, 0x3fffe8, 0x1ffffec)
    else if i < 208 then Row(i - 200, 0x3ffffe2, 0x3ffffe3, 0x3ffffe4, 0x7ffffde, 0x7ffffdf, 0x3ffffe5, 0xfffff1, 0x1ffffed)
    else if i < 216 then Row(i - 208, 0x7fff2, 0x1fffe3, 0x3ffffe6, 0x7ffffe0, 0x7ffffe1, 0x3ffffe7, 0x7ffffe2, 0xfffff2)
    else if i < 224 then Row(i - 216, 0x1fffe4, 0x1fffe5, 0x3ffffe8, 0x3ffffe9, 0xffffffd, 0x7ffffe3, 0x7ffffe4, 0x7ffffe5)
    else if i < 232 then Row(i - 224, 0xfffec, 0xfffff3, 0xfffed, 0x1fffe6, 0x3fffe9, 0x1fffe7, 0x1fffe8, 0x7ffff3)
    else if i < 240 then Row(i - 232, 0x3fffea, 0x3fffeb, 0x1ffffee, 0x1ffffef, 0xfffff4, 0xfffff5, 0x3ffffea, 0x7ffff4)
    else if i < 248 then Row(i - 240, 0x3ffffeb, 0x7ffffe6, 0x3ffffec, 0x3ffffed, 0x7ffffe7, 0x7ffffe8, 0x7ffffe9, 0x7ffffea)
    else Row(i - 248, 0x7ffffeb, 0xffffffe, 0x7ffffec, 0x7ffffed, 0x7ffffee, 0x7ffffef, 0x7fffff0, 0x3ffffee)
  }

  function Code4(i: int): int {
    Row(i - 256, 0x3fffffff, 0x0, 0x0, 0x0, 0x0, 0x0, 0x0, 0x0)
  }

  /** The code of symbol `i`, as a number. */
  function Code(i: int): int {
    if i < 64 then Code0(i)
    else if i < 128 then Code1(i)
    else if i < 192 then Code2(i)
    else if i < 256 then Code3(i)
    else Code4(i)
  }

  function CodeLen0(i: int): int {
    if i < 8 then Row(i - 0, 13, 23, 28, 28, 28, 28, 28, 28)
    else if i < 16 then Row(i - 8, 28, 24, 30, 28, 28, 30, 28, 28)
    else if i < 24 then Row(i - 16, 28, 28, 28, 28, 28, 28, 30, 28)
    else if i < 32 then Row(i - 24, 28, 28, 28, 28, 28, 28, 28, 28)
    else if i < 40 then Row(i - 32, 6, 10, 10, 12, 13, 6, 8, 11)
    else if i < 48 then Row(i - 40, 10, 10, 8, 11, 8, 6, 6, 6)
    else if i < 56 then Row(i - 48, 5, 5, 5, 6, 6, 6, 6, 6)
    else Row(i - 56, 6, 6, 7, 8, 15, 6, 12, 10)
  }

  function CodeLen1(i: int): int {
    if i < 72 then Row(i - 64, 13, 6, 7, 7, 7, 7, 7, 7)
    else if i < 80 then Row(i - 72, 7, 7, 7, 7, 7, 7, 7, 7)
    else if i < 88 then Row(i - 80, 7, 7, 7, 7, 7, 7, 7, 7)
    else if i < 96 then Row(i - 88, 8, 7, 8, 13, 19, 13, 14, 6)
    else if i < 104 then Row(i - 96, 15, 5, 6, 5, 6, 5, 6, 6)
    else if i < 112 then Row(i - 104, 6, 5, 7, 7, 6, 6, 6, 5)
    else if i < 120 then Row(i - 112, 6, 7, 6, 5, 5, 6, 7, 7)
    else Row(i - 120, 7, 7, 7, 15, 11, 14, 13, 28)
  }

  function CodeLen2(i: int): int {
    if i < 136 then Row(i - 128, 20, 22, 20, 20, 22, 22, 22, 23)
    else if i < 144 then Row(i - 136, 22, 23, 23, 23, 23, 23, 24, 23)
    else if i < 152 then Row(i - 144, 24, 24, 22, 23, 24, 23, 23, 23)
    else if i < 160 then Row(i - 152, 23, 21, 22, 23, 22, 23, 23, 24)
    else if i < 168 then Row(i - 160, 22, 21, 20, 22, 22, 23, 23, 21)
    else if i < 176 then Row(i - 168, 23, 22, 22, 24, 21, 22, 23, 23)
    else if i < 184 then Row(i - 176, 21, 21, 22, 21, 23, 22, 23, 23)
    else Row(i - 184, 20, 22, 22, 22, 23, 22, 22, 23)
  }

  function CodeLen3(i: int): int {
    if i < 200 then Row(i - 192, 26, 26, 20, 19, 22, 23, 22, 25)
    else if i < 208 then Row(i - 200, 26, 26, 26, 27, 27, 26, 24, 25)
    else if i < 216 then Row(i - 208, 19, 21, 26, 27, 27, 26, 27, 24)
    else if i < 224 then Row(i - 216, 21, 21, 26, 26, 28, 27, 27, 27)
    else if i < 232 then Row(i - 224, 20, 24, 20, 21, 22, 21, 21, 23)
    else if i < 240 then Row(i - 232, 22, 22, 25, 25, 24, 24, 26, 23)
    else if i < 248 then Row(i - 240, 26, 27, 26, 26, 27, 27, 27, 27)
    else Row(i - 248, 27, 28, 27, 27, 27, 27, 27, 26)
  }

  function CodeLen4(i: int): int {
    Row(i - 256, 30, 0, 0, 0, 0, 0, 0, 0)
  }

  /** The length in bits of the code of symbol `i`. */
  function CodeLen(i: int): int {
    if i < 64 then CodeLen0(i)
    else if i < 128 then CodeLen1(i)
    else if i < 192 then CodeLen2(i)
    else if i < 256 then CodeLen3(i)
    else CodeLen4(i)
  }

  /** The smallest code of length `i`, where there is one. */
  function FirstCode(i: int): int {
    if i < 8 then Row(i - 0, 0x0, 0x0, 0x0, 0x0, 0x0, 0x0, 0x14, 0x5c)
    else if i < 16 then Row(i - 8, 0xf8, 0x0, 0x3f8, 0x7fa, 0xffa, 0x1ff8, 0x3ffc, 0x7ffc)
    else if i < 24 then Row(i - 16, 0x0, 0x0, 0x0, 0x7fff0, 0xfffe6, 0x1fffdc, 0x3fffd2, 0x7fffd8)
    else Row(i - 24, 0xffffea, 0x1ffffec, 0x3ffffe0, 0x7ffffde, 0xfffffe2, 0x0, 0x3ffffffc, 0x0)
  }

  /** The place in `Symbol` of the first code of length `i`. */
  function FirstIndex(i: int): int {
    if i < 8 then Row(i - 0, 0, 0, 0, 0, 0, 0, 10, 36)
    else if i < 16 then Row(i - 8, 68, 74, 74, 79, 82, 84, 90, 92)
    else if i < 24 then Row(i - 16, 95, 95, 95, 95, 98, 106, 119, 145)
    else Row(i - 24, 174, 186, 190, 205, 224, 253, 253, 0)
  }

  /** How many codes have length `i`. */
  function Count(i: int): int {
    if i < 8 then Row(i - 0, 0, 0, 0, 0, 0, 10, 26, 32)
    else if i < 16 then Row(i - 8, 6, 0, 5, 3, 2, 6, 2, 3)
    else if i < 24 then Row(i - 16, 0, 0, 0, 3, 8, 13, 26, 29)
    else Row(i - 24, 12, 4, 15, 19, 29, 0, 4, 0)
  }

  function Symbol0(i: int): int {
    if i < 8 then Row(i - 0, 48, 49, 50, 97, 99, 101, 105, 111)
    else if i < 16 then Row(i - 8, 115, 116, 32, 37, 45, 46, 47, 51)
    else if i < 24 then Row(i - 16, 52, 53, 54, 55, 56, 57, 61, 65)
    else if i < 32 then Row(i - 24, 95, 98, 100, 102, 103, 104, 108, 109)
    else if i < 40 then Row(i - 32, 110, 112, 114, 117, 58, 66, 67, 68)
    else if i < 48 then Row(i - 40, 69, 70, 71, 72, 73, 74, 75, 76)
    else if i < 56 then Row(i - 48, 77, 78, 79, 80, 81, 82, 83, 84)
    else Row(i - 56, 85, 86, 87, 89, 106, 107, 113, 118)
  }

  function Symbol1(i: int): int {
    if i < 72 then Row(i - 64, 119, 120, 121, 122, 38, 42, 44, 59)
    else if i < 80 then Row(i - 72, 88, 90, 33, 34, 40, 41, 63, 39)
    else if i < 88 then Row(i - 80, 43, 124, 35, 62, 0, 36, 64, 91)
    else if i < 96 then Row(i - 88, 93, 126, 94, 125, 60, 96, 123, 92)
    else if i < 104 then Row(i - 96, 195, 208, 128, 130, 131, 162, 184, 194)
    else if i < 112 then Row(i - 104, 224, 226, 153, 161, 167, 172, 176, 177)
    else if i < 120 then Row(i - 112, 179, 209, 216, 217, 227, 229, 230, 129)
    else Row(i - 120, 132, 133, 134, 136, 146, 154, 156, 160)
  }

  function Symbol2(i: int): int {
    if i < 136 then Row(i - 128, 163, 164, 169, 170, 173, 178, 181, 185)
    else if i < 144 then Row(i - 136, 186, 187, 189, 190, 196, 198, 228, 232)
    else if i < 152 then Row(i - 144, 233, 1, 135, 137, 138, 139, 140, 141)
    else if i < 160 then Row(i - 152, 143, 147, 149, 150, 151, 152, 155, 157)
    else if i < 168 then Row(i - 160, 158, 165, 166, 168, 174, 175, 180, 182)
    else if i < 176 then Row(i - 168, 183, 188, 191, 197, 231, 239, 9, 142)
    else if i < 184 then Row(i - 176, 144, 145, 148, 159, 171, 206, 215, 225)
    else Row(i - 184, 236, 237, 199, 207, 234, 235, 192, 193)
  }

  function Symbol3(i: int): int {
    if i < 200 then Row(i - 192, 200, 201, 202, 205, 210, 213, 218, 219)
    else if i < 208 then Row(i - 200, 238, 240, 242, 243, 255, 203, 204, 211)
    else if i < 216 then Row(i - 208, 212, 214, 221, 222, 223, 241, 244, 245)
    else if i < 224 then Row(i - 216, 246, 247, 248, 250, 251, 252, 253, 254)
    else if i < 232 then Row(i - 224, 2, 3, 4, 5, 6, 7, 8, 11)
    else if i < 240 then Row(i - 232, 12, 14, 15, 16, 17, 18, 19, 20)
    else if i < 248 then Row(i - 240, 21, 23, 24, 25, 26, 27, 28, 29)
    else Row(i - 248, 30, 31, 127, 220, 249, 10, 13, 22)
  }

  function Symbol4(i: int): int {
    Row(i - 256, 256, 0, 0, 0, 0, 0, 0, 0)
  }

  /** The symbols, ordered by code length and then by code. */
  function Symbol(i: int): int {
    if i < 64 then Symbol0(i)
    else if i < 128 then Symbol1(i)
    else if i < 192 then Symbol2(i)
    else if i < 256 then Symbol3(i)
    else Symbol4(i)
  }

  /** Whether `code`, `n` bits long, is the code of some symbol: the decoder's test. */
  predicate Matches(code: int, n: int) {
    Count(n) != 0 && FirstCode(n) <= code && code - FirstCode(n) < Count(n)
  }

  /** The symbol the decoder finds for a code that matches. */
  function SymbolOf(code: int, n: int): int
    requires Matches(code, n)
  {
    Symbol(FirstIndex(n) + (code - FirstCode(n)))
  }

  predicate SymbolAgrees(s: int) {
    && 5 <= CodeLen(s) <= MAX_BITS
    && Matches(Code(s), CodeLen(s))
    && SymbolOf(Code(s), CodeLen(s)) == s
  }

  predicate CodeAgrees(code: int, n: int) {
    Matches(code, n) ==>
      var s := SymbolOf(code, n);
      0 <= s <= EOS && Code(s) == code && CodeLen(s) == n
  }

  lemma ControlSymbols(s: int)
    requires 0 <= s < 64
    ensures SymbolAgrees(s)
  {
  }

  lemma LetterSymbols(s: int)
    requires 64 <= s < 128
    ensures SymbolAgrees(s)
  {
  }

  lemma HighSymbols(s: int)
    requires 128 <= s < 192
    ensures SymbolAgrees(s)
  {
  }

  lemma TopSymbols(s: int)
    requires 192 <= s <= EOS
    ensures SymbolAgrees(s)
  {
  }

  lemma ShortCodes(code: int, n: int)
    requires 0 <= n <= 21
    ensures CodeAgrees(code, n)
  {
  }

  lemma MiddleCodes(code: int, n: int)
    requires 21 < n <= 24
    ensures CodeAgrees(code, n)
  {
  }

  lemma LongCodes(code: int, n: int)
    requires 24 < n <= MAX_BITS
    ensures CodeAgrees(code, n)
  {
  }

  /** The encoder's table and the decoder's tables describe the same code: looking up the code of
      a symbol finds that symbol. */
  lemma SymbolOfCode(s: int)
    requires 0 <= s <= EOS
    ensures 5 <= CodeLen(s) <= MAX_BITS && Matches(Code(s), CodeLen(s))
    ensures SymbolOf(Code(s), CodeLen(s)) == s
  {
    if s < 64 {
      ControlSymbols(s);
    } else if s < 128 {
      LetterSymbols(s);
    } else if s < 192 {
      HighSymbols(s);
    } else {
      TopSymbols(s);
    }
  }

  /** Conversely, whatever the decoder finds has the code it was found under. */
  lemma CodeOfSymbol(code: int, n: int)
    requires 0 <= n <= MAX_BITS && Matches(code, n)
    ensures 0 <= SymbolOf(code, n) <= EOS
    ensures Code(SymbolOf(code, n)) == code && CodeLen(SymbolOf(code, n)) == n
  {
    if n <= 21 {
      ShortCodes(code, n);
    } else if n <= 24 {
      MiddleCodes(code, n);
    } else {
      LongCodes(code, n);
    }
  }

  /** Where the codes of length `n` start in the canonical code, whether or not there are any. */
  function Floor(n: nat): int {
    if n == 0 then 0 else 2 * (Floor(n - 1) + Count(n - 1))
  }

  lemma FloorIsFirstCode(n: nat)
    requires n <= MAX_BITS && Count(n) != 0
    ensures FirstCode(n) == Floor(n)
  {
    assert Floor(5) == 0 && Floor(6) == 0x14 && Floor(7) == 0x5c && Floor(8) == 0xf8;
    assert Floor(10) == 0x3f8 && Floor(11) == 0x7fa && Floor(12) == 0xffa;
    assert Floor(13) == 0x1ff8 && Floor(14) == 0x3ffc && Floor(15) == 0x7ffc;
    assert Floor(19) == 0x7fff0 && Floor(20) == 0xfffe6 && Floor(21) == 0x1fffdc;
    assert Floor(22) == 0x3fffd2 && Floor(23) == 0x7fffd8 && Floor(24) == 0xffffea;
    assert Floor(25) == 0x1ffffec && Floor(26) == 0x3ffffe0 && Floor(27) == 0x7ffffde;
    assert Floor(28) == 0xfffffe2 && Floor(30) == 0x3ffffffc;
  }

  lemma FloorTop()
    ensures Floor(31) == 0x8000_0000
  {
    FloorIsFirstCode(30);
  }

  // ----- The code is canonical

  /** Place `i` and the one after it hold symbols of codes of length `n`. */
  predicate Neighbours(i: int, n: int) { FirstIndex(n) <= i && i + 1 < FirstIndex(n) + Count(n) }

  lemma ShortAscend(i: int, n: int)
    requires 0 <= n <= 8 && Neighbours(i, n)
    ensures Symbol(i) < Symbol(i + 1)
  {
  }

  lemma MiddleAscend(i: int, n: int)
    requires 8 < n <= 22 && Neighbours(i, n)
    ensures Symbol(i) < Symbol(i + 1)
  {
  }

  lemma LongAscend(i: int, n: int)
    requires 22 < n <= MAX_BITS && Neighbours(i, n)
    ensures Symbol(i) < Symbol(i + 1)
  {
  }

  lemma {:induction false} Ascend(i: int, j: int, n: int)
    requires 0 <= n <= MAX_BITS && FirstIndex(n) <= i <= j < FirstIndex(n) + Count(n)
    ensures Symbol(i) <= Symbol(j) && (i < j ==> Symbol(i) < Symbol(j))
    decreases j - i
  {
    hide Symbol, FirstIndex, Count;
    if i < j {
      Ascend(i, j - 1, n);
      assert Neighbours(j - 1, n);
      if n <= 8 {
        ShortAscend(j - 1, n);
      } else if n <= 22 {
        MiddleAscend(j - 1, n);
      } else {
        LongAscend(j - 1, n);
      }
    }
  }

  /** Of two symbols with codes of the same length the lesser has the lesser code, so the lengths alone
      determine the whole code. */
  lemma CodeIsCanonical(s: int, t: int)
    requires 0 <= s < t <= EOS && CodeLen(s) == CodeLen(t)
    ensures Code(s) < Code(t)
  {
    hide Symbol, FirstIndex, Count, FirstCode, Code, CodeLen;
    SymbolOfCode(s);
    SymbolOfCode(t);
    var n := CodeLen(s);
    var i, j := FirstIndex(n) + Code(s) - FirstCode(n), FirstIndex(n) + Code(t) - FirstCode(n);
    if j <= i {
      Ascend(j, i, n);
    }
  }
}
