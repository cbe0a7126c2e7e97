/** The text rules that every HTTP field shares: ASCII case, tokens, optional whitespace, and
    numbers that are nothing but digits. */
module HttpText {
  import opened Bytes

  const CR: Byte := 13
  const LF: Byte := 10
  const SP: Byte := 32
  const COLON: Byte := 58
  const SEMICOLON: Byte := 59
  const COMMA: Byte := 44

  function Ascii(s: string): (r: ByteSeq)
    ensures |r| == |s|
  {
    seq(|s|, i requires 0 <= i < |s| => s[i] as int % 256)
  }

  function LowerByte(c: Byte): Byte { if 'A' as int <= c <= 'Z' as int then c + 32 else c }

  function LowerBytes(s: ByteSeq): (r: ByteSeq)
    ensures |r| == |s|
  {
    seq(|s|, i requires 0 <= i < |s| => LowerByte(s[i]))
  }

  /** Equality that ignores ASCII case. */
  predicate Eqi(a: ByteSeq, b: ByteSeq) { LowerBytes(a) == LowerBytes(b) }

  predicate IsOWS(c: Byte) { c == ' ' as int || c == '\t' as int }

  predicate IsTokenChar(c: Byte) {
    || '0' as int <= c <= '9' as int
    || 'A' as int <= c <= 'Z' as int
    || 'a' as int <= c <= 'z' as int
    || c in Ascii("!#$%&'*+-.^_`|~")
  }

  predicate IsToken(s: ByteSeq) {
    s != [] && forall i :: 0 <= i < |s| ==> IsTokenChar(s[i])
  }

  function TrimLeft(s: ByteSeq): ByteSeq {
    if s != [] && IsOWS(s[0]) then TrimLeft(s[1..]) else s
  }

  function TrimRight(s: ByteSeq): ByteSeq {
    if s != [] && IsOWS(s[|s| - 1]) then TrimRight(s[..|s| - 1]) else s
  }

  function Trim(s: ByteSeq): ByteSeq { TrimRight(TrimLeft(s)) }

  /** Where `c` first occurs at or after `from`. */
  function FindByte(s: ByteSeq, from: nat, c: Byte): (r: Option<nat>)
    ensures r.Some? ==> from <= r.value < |s| && s[r.value] == c
    ensures r.Some? ==> forall i :: from <= i < r.value ==> s[i] != c
    ensures r.None? ==> forall i :: from <= i < |s| ==> s[i] != c
    decreases |s| - from
  {
    if from >= |s| then None else if s[from] == c then Some(from) else FindByte(s, from + 1, c)
  }

  /** The pieces between the commas of `s`. */
  function SplitCommas(s: ByteSeq): seq<ByteSeq> {
    match FindByte(s, 0, COMMA)
    case None => [s]
    case Some(i) => [s[..i]] + SplitCommas(s[i + 1..])
  }

  // ----- Strict numbers

  function DigitValue(c: Byte): Option<nat> {
    if '0' as int <= c <= '9' as int then Some(c - '0' as int)
    else if 'A' as int <= c <= 'Z' as int then Some(c - 'A' as int + 10)
    else if 'a' as int <= c <= 'z' as int then Some(c - 'a' as int + 10)
    else None
  }

  predicate IsDigit(c: Byte, base: nat) { DigitValue(c).Some? && DigitValue(c).value < base }

  /** The value of a string of digits. */
  function NumberValue(s: ByteSeq, base: nat): nat
    requires forall i :: 0 <= i < |s| ==> IsDigit(s[i], base)
  {
    if s == [] then 0
    else
      assert IsDigit(s[|s| - 1], base);
      base * NumberValue(s[..|s| - 1], base) + DigitValue(s[|s| - 1]).value
  }

  /** A 64-bit number with no sign, no prefix, no space and nothing after it. */
  function ParseNumber(s: ByteSeq, base: nat): Option<nat> {
    if s != [] && (forall i :: 0 <= i < |s| ==> IsDigit(s[i], base)) && NumberValue(s, base) < U64
    then Some(NumberValue(s, base)) else None
  }

  function HexDigit(d: nat): Byte
    requires d < 16
  {
    if d < 10 then '0' as int + d else 'a' as int + d - 10
  }

  /** Lowercase hexadecimal, without leading zeros. */
  function FormatHex(v: nat): (r: ByteSeq)
    ensures r != []
  {
    if v < 16 then [HexDigit(v)] else FormatHex(v / 16) + [HexDigit(v % 16)]
  }

  lemma {:induction false} FormatHexDigits(v: nat)
    ensures var s := FormatHex(v);
            && (forall i :: 0 <= i < |s| ==> IsDigit(s[i], 16))
            && NumberValue(s, 16) == v
  {
    var s := FormatHex(v);
    if v >= 16 {
      FormatHexDigits(v / 16);
      assert s[..|s| - 1] == FormatHex(v / 16);
    } else {
      assert s[..0] == [];
    }
  }

  lemma {:induction false} FormatHexLength(v: nat, n: nat)
    requires n > 0 && v < Pow2(4 * n)
    ensures |FormatHex(v)| <= n
  {
    if v >= 16 {
      assert Pow2(4) == 16;
      Pow2Add(4, 4 * (n - 1));
      assert n > 1;
      FormatHexLength(v / 16, n - 1);
    }
  }

  /** A size written in hexadecimal reads back as itself. */
  lemma ParseFormatHex(v: nat)
    requires v < U64
    ensures ParseNumber(FormatHex(v), 16) == Some(v)
    ensures |FormatHex(v)| <= 16
  {
    FormatHexDigits(v);
    Pow2Table();
    FormatHexLength(v, 16);
  }
}
