/** Field sections by the wire format: every form a field line may take (sections 4.5.2 to 4.5.6 of
    RFC 9204), whichever encoder chose it, and what the decoder makes of any list of them. */
module QpackForms {
  import opened Bytes
  import opened HttpText
  import opened QpackStatic
  import opened Qpack
  import Huffman
  import PrefixInt
  import Varint

  /** A string literal, Huffman-coded or not as the encoder pleases. */
  datatype Text = Text(bytes: Str, huffman: bool)

  /** A field line. `never` is the bit that asks intermediaries not to index it; the last three forms
      refer to the dynamic table, which has no entries here. */
  datatype Form =
    | Indexed(i: nat)
    | Named(never: bool, i: nat, value: Text)
    | Literal(never: bool, name: Text, value: Text)
    | DynamicIndexed(i: nat)
    | DynamicNamed(never: bool, i: nat, more: ByteSeq)
    | PostBase(first: Byte, more: ByteSeq)

  function TextBytes(t: Text, n: nat, flags: nat): ByteSeq {
    if t.huffman then PrefixInt.Encode(|Huffman.Encode(t.bytes)|, n, flags + Pow2(n)) + Huffman.Encode(t.bytes)
    else PrefixInt.Encode(|t.bytes|, n, flags) + t.bytes
  }

  function FormBytes(f: Form): ByteSeq {
    match f
    case Indexed(i) => PrefixInt.Encode(i, 6, 0xc0)
    case Named(never, i, value) => PrefixInt.Encode(i, 4, if never then 0x70 else 0x50) + TextBytes(value, 7, 0)
    case Literal(never, name, value) =>
      TextBytes(name, 3, if never then 0x30 else 0x20) + TextBytes(value, 7, 0)
    case DynamicIndexed(i) => PrefixInt.Encode(i, 6, 0x80)
    case DynamicNamed(never, i, more) => PrefixInt.Encode(i, 4, if never then 0x60 else 0x40) + more
    case PostBase(first, more) => [first] + more
  }

  /** Integers that have an encoding. */
  predicate Sized(t: Text) { t.huffman ==> |Huffman.Encode(t.bytes)| <= Varint.VARINT_MAX }

  predicate FormOk(f: Form) {
    match f
    case Indexed(i) => i <= Varint.VARINT_MAX
    case Named(_, i, value) => i <= Varint.VARINT_MAX && Sized(value)
    case Literal(_, name, value) => Sized(name) && Sized(value)
    case DynamicIndexed(i) => i <= Varint.VARINT_MAX
    case DynamicNamed(_, i, _) => i <= Varint.VARINT_MAX
    case PostBase(first, _) => first < 0x20
  }

  /** The field a line says, if its references are to entries there are and its literals within the limit. */
  function Says(f: Form, maxlen: nat): Option<(ByteSeq, ByteSeq)> {
    match f
    case Indexed(i) => if i < 99 then Some((EntryName(i), EntryValue(i))) else None
    case Named(_, i, value) => if i < 99 && |value.bytes| <= maxlen then Some((EntryName(i), value.bytes)) else None
    case Literal(_, name, value) =>
      if |name.bytes| <= maxlen && |value.bytes| <= maxlen then Some((name.bytes, value.bytes)) else None
    case _ => None
  }

  // ----- The encoder's choice

  lemma {:induction false} DigitsGrow(v: nat, w: nat)
    requires v <= w
    ensures |PrefixInt.Digits(v)| <= |PrefixInt.Digits(w)|
    decreases w
  {
    if w >= 128 && v >= 128 {
      DigitsGrow(v / 128, w / 128);
    }
  }

  lemma PrefixGrows(v: nat, w: nat, n: nat, f: nat, g: nat)
    requires v <= w
    ensures |PrefixInt.Encode(v, n, f)| <= |PrefixInt.Encode(w, n, g)|
  {
    var fit := PrefixInt.Fit(n);
    if v >= fit {
      DigitsGrow(v - fit, w - fit);
    }
  }

  lemma WrittenAs(data: Str, n: nat, flags: nat)
    ensures EncodeStr(data, n, flags)
            == TextBytes(Text(data, data != [] && |Huffman.Encode(data)| < |data|), n, flags)
  {
    hide PrefixInt.Encode, Huffman.Encode, Pow2;
  }

  lemma CodedIsLonger(data: Str, n: nat, flags: nat)
    ensures var h, p := TextBytes(Text(data, true), n, flags), TextBytes(Text(data, false), n, flags);
            if |Huffman.Encode(data)| <= |data| then |h| <= |p| else |p| <= |h|
  {
    hide PrefixInt.Encode, Huffman.Encode, Pow2;
    var coded := Huffman.Encode(data);
    if |coded| <= |data| {
      PrefixGrows(|coded|, |data|, n, flags + Pow2(n), flags);
    } else {
      PrefixGrows(|data|, |coded|, n, flags, flags + Pow2(n));
    }
  }

  lemma SameLength(data: Str, n: nat, flags: nat)
    requires |Huffman.Encode(data)| == |data|
    ensures |TextBytes(Text(data, true), n, flags)| == |TextBytes(Text(data, false), n, flags)|
  {
    hide PrefixInt.Encode, Huffman.Encode, Pow2;
    PrefixGrows(|data|, |data|, n, flags + Pow2(n), flags);
    PrefixGrows(|data|, |data|, n, flags, flags + Pow2(n));
  }

  /** A literal is written no longer than either way of writing it. */
  lemma ShorterIsChosen(t: Text, n: nat, flags: nat)
    ensures |EncodeStr(t.bytes, n, flags)| <= |TextBytes(t, n, flags)|
  {
    hide EncodeStr, TextBytes, Huffman.Encode;
    WrittenAs(t.bytes, n, flags);
    CodedIsLonger(t.bytes, n, flags);
    if |Huffman.Encode(t.bytes)| == |t.bytes| {
      SameLength(t.bytes, n, flags);
    }
    if t.bytes == [] {
      NothingCoded();
    }
    assert t == Text(t.bytes, true) || t == Text(t.bytes, false);
  }

  lemma NothingCoded()
    ensures Huffman.Encode([]) == []
  {
  }

  // ----- One line

  lemma Flags()
    ensures PrefixInt.FlagsOk(0xc0, 6) && PrefixInt.FlagsOk(0x80, 6)
    ensures PrefixInt.FlagsOk(0x40, 4) && PrefixInt.FlagsOk(0x50, 4) && PrefixInt.FlagsOk(0x60, 4)
            && PrefixInt.FlagsOk(0x70, 4)
    ensures PrefixInt.FlagsOk(0x80, 7) && PrefixInt.FlagsOk(0, 7) && PrefixInt.FlagsOk(0, 8)
    ensures Pow2(3) == 8 && Pow2(4) == 16 && Pow2(6) == 64 && Pow2(7) == 128
  {
    Pow2Table();
    assert Pow2(3) == 8 && Pow2(4) == 16 && Pow2(6) == 64 && Pow2(7) == 128;
  }

  lemma NameFlags()
    ensures forall f :: f in {0x20, 0x28, 0x30, 0x38} ==> PrefixInt.FlagsOk(f, 3)
    ensures !HuffBit(0x20, 3) && HuffBit(0x28, 3) && !HuffBit(0x30, 3) && HuffBit(0x38, 3)
    ensures HuffBit(0x80, 7) && !HuffBit(0, 7)
  {
    Pow2Table();
    assert Pow2(3) == 8;
  }

  /** A literal reads as its text, or not at all if that is too long. */
  lemma TextReads(t: Text, n: nat, flags: nat, maxlen: nat, rest: ByteSeq)
    requires Sized(t) && PrefixInt.FlagsOk(flags, n) && PrefixInt.FlagsOk(flags + Pow2(n), n)
    requires !HuffBit(flags, n) && HuffBit(flags + Pow2(n), n)
    ensures DecodeStr(TextBytes(t, n, flags) + rest, n, maxlen)
            == if |t.bytes| <= maxlen then Some((t.bytes, |TextBytes(t, n, flags)|)) else None
    ensures TextBytes(t, n, flags) != []
            && flags <= TextBytes(t, n, flags)[0] < flags + Pow2(n) + Pow2(n)
  {
    hide PrefixInt.Decode, PrefixInt.Encode, PrefixInt.FlagsOk, HuffBit, Huffman.Decode, Huffman.Encode, Pow2;
    var body := if t.huffman then Huffman.Encode(t.bytes) else t.bytes;
    var fl := if t.huffman then flags + Pow2(n) else flags;
    LiteralReads(body, n, fl, rest);
    FirstByteFlags(|body|, n, fl);
    if t.huffman {
      Huffman.DecodeEncode(t.bytes);
    }
  }

  lemma ValueReads(t: Text, maxlen: nat, rest: ByteSeq)
    requires Sized(t)
    ensures DecodeStr(TextBytes(t, 7, 0) + rest, 7, maxlen)
            == if |t.bytes| <= maxlen then Some((t.bytes, |TextBytes(t, 7, 0)|)) else None
  {
    hide TextBytes, DecodeStr, PrefixInt.FlagsOk, HuffBit;
    Flags();
    NameFlags();
    TextReads(t, 7, 0, maxlen, rest);
  }

  /** An index with its flags. */
  lemma IndexReads(i: nat, n: nat, flags: nat, more: ByteSeq)
    requires i <= Varint.VARINT_MAX && PrefixInt.FlagsOk(flags, n)
    ensures var head := PrefixInt.Encode(i, n, flags);
            && head != [] && flags <= (head + more)[0] < flags + Pow2(n)
            && PrefixInt.Decode(head + more, n) == Some(PrefixInt.Read(i, flags, |head|))
            && (head + more)[|head|..] == more
  {
    hide PrefixInt.Decode, PrefixInt.FlagsOk, Pow2;
    PrefixInt.RoundTrip(i, n, flags, more);
    FirstByteFlags(i, n, flags);
  }

  ghost predicate ReadsAs(f: Form, maxlen: nat, rest: ByteSeq) {
    var r := Says(f, maxlen);
    && FormBytes(f) != []
    && DecodeLine(FormBytes(f) + rest, maxlen)
       == if r.None? then None else Some((r.value.0, r.value.1, |FormBytes(f)|))
  }

  lemma IndexedReads(f: Form, maxlen: nat, rest: ByteSeq)
    requires FormOk(f) && (f.Indexed? || f.DynamicIndexed? || f.PostBase?)
    ensures ReadsAs(f, maxlen, rest)
  {
    hide PrefixInt.Decode, PrefixInt.Encode, PrefixInt.FlagsOk, Entry, DecodeStr, Pow2;
    Flags();
    if !f.PostBase? {
      IndexReads(f.i, 6, if f.Indexed? then 0xc0 else 0x80, rest);
    }
  }

  lemma NamedReads(f: Form, maxlen: nat, rest: ByteSeq)
    requires FormOk(f) && f.Named?
    ensures ReadsAs(f, maxlen, rest)
  {
    hide PrefixInt.Decode, PrefixInt.Encode, PrefixInt.FlagsOk, Entry, DecodeStr, Pow2, TextBytes;
    Flags();
    var tail := TextBytes(f.value, 7, 0);
    var head := PrefixInt.Encode(f.i, 4, if f.never then 0x70 else 0x50);
    assert FormBytes(f) + rest == head + (tail + rest);
    IndexReads(f.i, 4, if f.never then 0x70 else 0x50, tail + rest);
    ValueReads(f.value, maxlen, rest);
  }

  lemma DynamicNamedReads(f: Form, maxlen: nat, rest: ByteSeq)
    requires FormOk(f) && f.DynamicNamed?
    ensures ReadsAs(f, maxlen, rest)
  {
    hide PrefixInt.Decode, PrefixInt.Encode, PrefixInt.FlagsOk, Entry, DecodeStr, Pow2;
    Flags();
    var flags := if f.never then 0x60 else 0x40;
    assert FormBytes(f) + rest == PrefixInt.Encode(f.i, 4, flags) + (f.more + rest);
    IndexReads(f.i, 4, flags, f.more + rest);
  }

  lemma LiteralFormReads(f: Form, maxlen: nat, rest: ByteSeq)
    requires FormOk(f) && f.Literal?
    ensures ReadsAs(f, maxlen, rest)
  {
    hide PrefixInt.Decode, PrefixInt.FlagsOk, Entry, DecodeStr, Pow2, TextBytes, HuffBit;
    Flags();
    NameFlags();
    var flags := if f.never then 0x30 else 0x20;
    var head, tail := TextBytes(f.name, 3, flags), TextBytes(f.value, 7, 0);
    var s := FormBytes(f) + rest;
    assert s == head + (tail + rest);
    TextReads(f.name, 3, flags, maxlen, tail + rest);
    ValueReads(f.value, maxlen, rest);
    assert s[|head|..] == tail + rest && s[0] == head[0];
  }

  lemma FormReads(f: Form, maxlen: nat, rest: ByteSeq)
    requires FormOk(f)
    ensures ReadsAs(f, maxlen, rest)
  {
    if f.Named? {
      NamedReads(f, maxlen, rest);
    } else if f.DynamicNamed? {
      DynamicNamedReads(f, maxlen, rest);
    } else if f.Literal? {
      LiteralFormReads(f, maxlen, rest);
    } else {
      IndexedReads(f, maxlen, rest);
    }
  }

  // ----- Any list of lines

  function LinesBytes(fs: seq<Form>): ByteSeq {
    if fs == [] then [] else FormBytes(fs[0]) + LinesBytes(fs[1..])
  }

  function Counts(f: Form, maxlen: nat): nat {
    var r := Says(f, maxlen);
    if r.None? then 0 else |r.value.0| + |r.value.1| + 32
  }

  /** What the first `n` lines count for against the limit. */
  function Total(fs: seq<Form>, n: nat, maxlen: nat): nat
    requires n <= |fs|
  {
    if n == 0 then 0 else Total(fs, n - 1, maxlen) + Counts(fs[n - 1], maxlen)
  }

  /** What is wrong with line `k`, if anything: that it cannot be decoded, or that the field is not valid
      or is one too many. */
  function Wrong(fs: seq<Form>, k: nat, lim: Limits): Option<nat>
    requires k < |fs|
  {
    var r := Says(fs[k], lim.maxSize);
    if r.None? then Some(0x200)
    else if !ValidName(r.value.0) || !ValidValue(r.value.1) then Some(0x10e)
    else if k >= lim.maxCount || Total(fs, k + 1, lim.maxSize) > lim.maxSize then Some(0x10e)
    else None
  }

  predicate Right(fs: seq<Form>, n: nat, lim: Limits)
    requires n <= |fs|
  {
    forall j :: 0 <= j < n ==> Wrong(fs, j, lim).None?
  }

  /** The fields of the first `n` lines. */
  function Said(fs: seq<Form>, n: nat, lim: Limits): seq<Field>
    requires n <= |fs| && lim.maxSize < U32 && Right(fs, n, lim)
  {
    if n == 0 then []
    else
      assert Wrong(fs, n - 1, lim).None?;
      var r := Says(fs[n - 1], lim.maxSize).value;
      Said(fs, n - 1, lim) + [Field(r.0, r.1)]
  }

  lemma LineSplits(fs: seq<Form>, k: nat)
    requires k < |fs|
    ensures LinesBytes(fs[k..]) == FormBytes(fs[k]) + LinesBytes(fs[k + 1..])
  {
    hide FormBytes;
    assert fs[k..][1..] == fs[k + 1..];
  }

  lemma LineTaken(fs: seq<Form>, k: nat, lim: Limits)
    requires k < |fs| && lim.maxSize < U32 && (forall j :: 0 <= j < |fs| ==> FormOk(fs[j])) && Right(fs, k, lim)
    ensures var d := DecodeLines(LinesBytes(fs[k..]), Said(fs, k, lim), Total(fs, k, lim.maxSize), lim);
            if Wrong(fs, k, lim).Some? then d == Failed(Wrong(fs, k, lim).value, Said(fs, k, lim))
            else
              && Right(fs, k + 1, lim)
              && d == DecodeLines(LinesBytes(fs[k + 1..]), Said(fs, k + 1, lim), Total(fs, k + 1, lim.maxSize), lim)
  {
    hide Says, FormOk, FormBytes, DecodeLine, ValidName, ValidValue, LinesBytes;
    var rest := LinesBytes(fs[k + 1..]);
    var s := FormBytes(fs[k]) + rest;
    FormReads(fs[k], lim.maxSize, rest);
    LineSplits(fs, k);
    assert s[|FormBytes(fs[k])|..] == rest;
    SaidCount(fs, k, lim);
  }

  lemma {:induction false} SaidCount(fs: seq<Form>, n: nat, lim: Limits)
    requires n <= |fs| && lim.maxSize < U32 && Right(fs, n, lim)
    ensures |Said(fs, n, lim)| == n
  {
    hide Wrong;
    if n > 0 {
      SaidCount(fs, n - 1, lim);
    }
  }

  lemma NoLines(done: seq<Field>, size: nat, lim: Limits)
    requires lim.maxSize < U32
    ensures DecodeLines(LinesBytes([]), done, size, lim) == Fields(done)
  {
  }

  lemma {:induction false} AllTaken(fs: seq<Form>, k: nat, lim: Limits)
    requires k <= |fs| && lim.maxSize < U32 && (forall j :: 0 <= j < |fs| ==> FormOk(fs[j])) && Right(fs, |fs|, lim)
    ensures DecodeLines(LinesBytes(fs[k..]), Said(fs, k, lim), Total(fs, k, lim.maxSize), lim)
            == Fields(Said(fs, |fs|, lim))
    decreases |fs| - k
  {
    hide Wrong, Said, FormOk, Total, DecodeLines, LinesBytes;
    if k == |fs| {
      assert fs[k..] == [];
      NoLines(Said(fs, k, lim), Total(fs, k, lim.maxSize), lim);
    } else {
      assert Right(fs, k, lim);
      LineTaken(fs, k, lim);
      AllTaken(fs, k + 1, lim);
    }
  }

  lemma {:induction false} TakenUpTo(fs: seq<Form>, k: nat, m: nat, lim: Limits)
    requires k <= m < |fs| && lim.maxSize < U32 && (forall j :: 0 <= j < |fs| ==> FormOk(fs[j]))
    requires Right(fs, m, lim) && Wrong(fs, m, lim).Some?
    ensures DecodeLines(LinesBytes(fs[k..]), Said(fs, k, lim), Total(fs, k, lim.maxSize), lim)
            == Failed(Wrong(fs, m, lim).value, Said(fs, m, lim))
    decreases m - k
  {
    hide Wrong, Said, FormOk, Total, DecodeLines, LinesBytes;
    assert Right(fs, k, lim);
    LineTaken(fs, k, lim);
    if k < m {
      TakenUpTo(fs, k + 1, m, lim);
    }
  }

  // ----- The prefix

  /** A section is decoded line by line only if it was encoded against an empty dynamic table, as its
      two-integer prefix says. */
  lemma PrefixExactly(ric: nat, negative: bool, delta: nat, lines: ByteSeq, lim: Limits)
    requires lim.maxSize < U32 && ric <= Varint.VARINT_MAX && delta <= Varint.VARINT_MAX
    ensures var prefix := PrefixInt.Encode(ric, 8, 0) + PrefixInt.Encode(delta, 7, if negative then 0x80 else 0);
            DecodeSection(prefix + lines, lim)
            == if ric == 0 && !negative then DecodeLines(lines, [], 0, lim) else Failed(0x200, [])
  {
    hide PrefixInt.Decode, PrefixInt.Encode, PrefixInt.FlagsOk, DecodeLines, Pow2;
    var a, b := PrefixInt.Encode(ric, 8, 0), PrefixInt.Encode(delta, 7, if negative then 0x80 else 0);
    Flags();
    assert a + b + lines == a + (b + lines);
    IndexReads(ric, 8, 0, b + lines);
    IndexReads(delta, 7, if negative then 0x80 else 0, lines);
  }

  /** Every section another encoder may write, any of the forms in any order: if no line is wrong, the
      fields are what the lines say, in order. */
  lemma SectionExactly(fs: seq<Form>, delta: nat, lim: Limits)
    requires lim.maxSize < U32 && delta <= Varint.VARINT_MAX && forall j :: 0 <= j < |fs| ==> FormOk(fs[j])
    requires Right(fs, |fs|, lim)
    ensures DecodeSection(PrefixInt.Encode(0, 8, 0) + PrefixInt.Encode(delta, 7, 0) + LinesBytes(fs), lim)
            == Fields(Said(fs, |fs|, lim))
  {
    hide DecodeSection, Right, FormOk, DecodeLines;
    PrefixExactly(0, false, delta, LinesBytes(fs), lim);
    assert fs[0..] == fs;
    AllTaken(fs, 0, lim);
  }

  /** Otherwise the section is refused for its first wrong line, with the fields before it. */
  lemma SectionRefused(fs: seq<Form>, m: nat, delta: nat, lim: Limits)
    requires lim.maxSize < U32 && delta <= Varint.VARINT_MAX && forall j :: 0 <= j < |fs| ==> FormOk(fs[j])
    requires m < |fs| && Right(fs, m, lim) && Wrong(fs, m, lim).Some?
    ensures DecodeSection(PrefixInt.Encode(0, 8, 0) + PrefixInt.Encode(delta, 7, 0) + LinesBytes(fs), lim)
            == Failed(Wrong(fs, m, lim).value, Said(fs, m, lim))
  {
    hide DecodeSection, FormOk, DecodeLines, Wrong;
    PrefixExactly(0, false, delta, LinesBytes(fs), lim);
    assert fs[0..] == fs;
    assert Right(fs, 0, lim);
    TakenUpTo(fs, 0, m, lim);
  }

  // ----- Names and values

  predicate NoCapitals(s: ByteSeq) { forall i :: 0 <= i < |s| ==> !(65 <= s[i] <= 90) }

  /** A name is a token in lower case, after a colon if it is a pseudo-header's. */
  lemma NameExactly(name: ByteSeq)
    ensures ValidName(name) <==>
            NoCapitals(name) && (IsToken(name) || (name != [] && name[0] == ':' as int && IsToken(name[1..])))
  {
    hide IsTokenChar;
    ColonIsNoToken();
    if name != [] && name[0] == COLON {
      var t := name[1..];
      assert forall i :: 0 <= i < |t| ==> t[i] == name[i + 1];
      assert (forall i :: 0 <= i < |name| ==> NameByteOk(name[i], i)) <==>
             NoCapitals(name) && forall i :: 0 <= i < |t| ==> IsTokenChar(t[i]) by {
        assert forall i :: 0 < i < |name| ==> name[i] == t[i - 1];
        assert forall i :: 0 <= i < |t| ==>
                 (NameByteOk(name[i + 1], i + 1) <==> IsTokenChar(t[i]) && !(65 <= t[i] <= 90));
      }
    }
  }

  lemma ColonIsNoToken()
    ensures !IsTokenChar(COLON)
  {
  }

  /** A value has no NUL, CR or LF, and nothing to trim. */
  lemma ValueExactly(value: ByteSeq)
    ensures ValidValue(value) <==>
            Trim(value) == value && forall i :: 0 <= i < |value| ==> value[i] != 0 && value[i] != 10 && value[i] != 13
  {
    if value != [] {
      if IsOWS(value[0]) {
        TrimShortens(value[1..]);
      } else {
        assert TrimLeft(value) == value;
        if IsOWS(value[|value| - 1]) {
          RightShortens(value[..|value| - 1]);
        }
      }
    }
  }

  lemma {:induction false} LeftShortens(s: ByteSeq)
    ensures |TrimLeft(s)| <= |s|
  {
    if s != [] && IsOWS(s[0]) {
      LeftShortens(s[1..]);
    }
  }

  lemma {:induction false} RightShortens(s: ByteSeq)
    ensures |TrimRight(s)| <= |s|
  {
    if s != [] && IsOWS(s[|s| - 1]) {
      RightShortens(s[..|s| - 1]);
    }
  }

  lemma TrimShortens(s: ByteSeq)
    ensures |TrimRight(TrimLeft(s))| <= |s|
  {
    LeftShortens(s);
    RightShortens(TrimLeft(s));
  }
}
