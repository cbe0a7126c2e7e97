/** QPACK field sections over the static table only (section 4.5 of RFC 9204). */
module Qpack {
  import opened Bytes
  import opened HttpText
  import opened QpackStatic
  import Huffman
  import PrefixInt
  import Varint

  const U32: nat := 0x1_0000_0000

  /** A string of the library: its length is a 32-bit count. */
  type Str = s: ByteSeq | |s| < U32

  datatype Field = Field(name: Str, value: Str)

  const DECOMPRESSION_FAILED := 0x200
  const MESSAGE_ERROR := 0x10e

  /** The fields of a section; or why it was refused, and the fields read before it was. */
  datatype Decoded = Fields(fields: seq<Field>) | Failed(error: nat, fields: seq<Field>)

  // ----- What a field may be

  function Lower(s: Str): (r: Str)
    ensures |r| == |s|
  {
    LowerBytes(s)
  }

  function LowerNames(fs: seq<Field>): (r: seq<Field>)
    ensures |r| == |fs|
  {
    seq(|fs|, i requires 0 <= i < |fs| => Field(Lower(fs[i].name), fs[i].value))
  }

  /** A byte a field name may have at position `i`. */
  predicate NameByteOk(c: Byte, i: nat) {
    (i == 0 && c == COLON) || (IsTokenChar(c) && !('A' as int <= c <= 'Z' as int))
  }

  predicate ValidName(name: ByteSeq) {
    name != [] && name != [COLON] && forall i :: 0 <= i < |name| ==> NameByteOk(name[i], i)
  }

  predicate ValueByteOk(c: Byte) { c != 0 && c != '\r' as int && c != '\n' as int }

  predicate ValidValue(value: ByteSeq) {
    && (value != [] ==> !IsOWS(value[0]) && !IsOWS(value[|value| - 1]))
    && forall i :: 0 <= i < |value| ==> ValueByteOk(value[i])
  }

  /** What one field counts for against the limit on a section. */
  function FieldSize(f: Field): nat { |f.name| + |f.value| + 32 }

  function SectionSize(fs: seq<Field>): nat {
    if fs == [] then 0 else FieldSize(fs[0]) + SectionSize(fs[1..])
  }

  // ----- String literals

  /** A literal: Huffman-coded when that is shorter, as the bit above the length prefix says. */
  function EncodeStr(data: ByteSeq, n: nat, flags: nat): ByteSeq
  {
    var coded := Huffman.Encode(data);
    if data != [] && |coded| < |data| then
      PrefixInt.Encode(|coded|, n, flags + Pow2(n)) + coded
    else
      PrefixInt.Encode(|data|, n, flags) + data
  }

  /** Whether the Huffman bit is set among flags read with a prefix of `n` bits. */
  predicate HuffBit(flags: nat, n: nat) {
    Shr(flags, n) % 2 == 1
  }

  /** The literal at the front of `s`, no longer than `maxlen` once decoded, and its width. */
  function DecodeStr(s: ByteSeq, n: nat, maxlen: nat): (r: Option<(ByteSeq, nat)>)
    ensures r.Some? ==> |r.value.0| <= maxlen && 1 <= r.value.1 <= |s|
  {
    match PrefixInt.Decode(s, n)
    case None => None
    case Some(len) =>
      if len.value > |s| - len.width then None
      else
        var end := len.width + len.value;
        var data := s[len.width..end];
        if !HuffBit(len.flags, n) then
          if len.value > maxlen then None else Some((data, end))
        else match Huffman.Decode(data)
          case None => None
          case Some(out) => if |out| > maxlen then None else Some((out, end))
  }

  // ----- Sections

  function IndexLine(i: nat): ByteSeq { PrefixInt.Encode(i, 6, 0xc0) }

  function NameRef(i: nat): ByteSeq { PrefixInt.Encode(i, 4, 0x50) }

  function NameLiteral(name: ByteSeq): ByteSeq { EncodeStr(name, 3, 0x20) }

  function ValueLiteral(value: ByteSeq): ByteSeq { EncodeStr(value, 7, 0) }

  function EncodeField(f: Field): ByteSeq {
    var name := Lower(f.name);
    match Index(name, f.value)
    case Some(i) => IndexLine(i)
    case None =>
      (match NameIndex(name)
       case Some(i) => NameRef(i)
       case None => NameLiteral(name))
      + ValueLiteral(f.value)
  }

  function EncodeFields(fs: seq<Field>): ByteSeq {
    if fs == [] then [] else EncodeField(fs[0]) + EncodeFields(fs[1..])
  }

  function EncodeSection(fs: seq<Field>): ByteSeq {
    [0, 0] + EncodeFields(fs)
  }

  /** The name and value on one field line, and the line's width. */
  function DecodeLine(s: ByteSeq, maxlen: nat): (r: Option<(ByteSeq, ByteSeq, nat)>)
    requires s != []
    ensures r.Some? ==> 1 <= r.value.2 <= |s|
  {
    if s[0] >= 0x80 then
      match PrefixInt.Decode(s, 6)
      case None => None
      case Some(idx) =>
        if idx.flags / 0x40 % 2 == 0 || idx.value >= STATIC_COUNT then None
        else Some((EntryName(idx.value), EntryValue(idx.value), idx.width))
    else if s[0] >= 0x40 then
      match PrefixInt.Decode(s, 4)
      case None => None
      case Some(idx) =>
        if idx.flags / 0x10 % 2 == 0 || idx.value >= STATIC_COUNT then None
        else match DecodeStr(s[idx.width..], 7, maxlen)
          case None => None
          case Some((value, w)) => Some((EntryName(idx.value), value, idx.width + w))
    else if s[0] >= 0x20 then
      match DecodeStr(s, 3, maxlen)
      case None => None
      case Some((name, w)) =>
        match DecodeStr(s[w..], 7, maxlen)
        case None => None
        case Some((value, w')) => Some((name, value, w + w'))
    else None
  }

  datatype Limits = Limits(maxCount: nat, maxSize: nat)

  /** The field lines in `s`, after `done` of them have been taken. */
  function DecodeLines(s: ByteSeq, done: seq<Field>, size: nat, lim: Limits): Decoded
    requires lim.maxSize < U32
    decreases |s|
  {
    if s == [] then Fields(done)
    else match DecodeLine(s, lim.maxSize)
      case None => Failed(DECOMPRESSION_FAILED, done)
      case Some((name, value, w)) =>
        if !ValidName(name) || !ValidValue(value) then Failed(MESSAGE_ERROR, done)
        else
          var size' := size + |name| + |value| + 32;
          if |done| + 1 > lim.maxCount || size' > lim.maxSize then Failed(MESSAGE_ERROR, done)
          else DecodeLines(s[w..], done + [Field(name, value)], size', lim)
  }

  function DecodeSection(s: ByteSeq, lim: Limits): Decoded
    requires lim.maxSize < U32
  {
    match PrefixInt.Decode(s, 8)
    case None => Failed(DECOMPRESSION_FAILED, [])
    case Some(ric) =>
      if ric.value != 0 then Failed(DECOMPRESSION_FAILED, [])
      else match PrefixInt.Decode(s[ric.width..], 7)
        case None => Failed(DECOMPRESSION_FAILED, [])
        case Some(base) =>
          if base.flags >= 0x80 then Failed(DECOMPRESSION_FAILED, [])
          else DecodeLines(s[ric.width..][base.width..], [], 0, lim)
  }

  lemma SectionFlags()
    ensures PrefixInt.FlagsOk(0xc0, 6) && PrefixInt.FlagsOk(0x50, 4)
    ensures PrefixInt.FlagsOk(0x20, 3) && PrefixInt.FlagsOk(0x20 + Pow2(3), 3)
    ensures PrefixInt.FlagsOk(0, 7) && PrefixInt.FlagsOk(0 + Pow2(7), 7)
    ensures HuffBit(0x20 + Pow2(3), 3) && !HuffBit(0x20, 3)
    ensures HuffBit(0 + Pow2(7), 7) && !HuffBit(0, 7)
  {
    Pow2Table();
    assert Pow2(3) == 8 && Pow2(4) == 16;
  }

  // ----- Decoding a section gives back what was encoded, with names lowercased

  /** A literal read back is itself, if it is within the limit. */
  lemma StrRoundTrip(data: ByteSeq, n: nat, flags: nat, maxlen: nat, rest: ByteSeq)
    requires PrefixInt.FlagsOk(flags, n) && PrefixInt.FlagsOk(flags + Pow2(n), n)
    requires !HuffBit(flags, n) && HuffBit(flags + Pow2(n), n)
    requires |data| <= maxlen && |data| < U32
    ensures DecodeStr(EncodeStr(data, n, flags) + rest, n, maxlen)
            == Some((data, |EncodeStr(data, n, flags)|))
    ensures |EncodeStr(data, n, flags)| <= |data| + 10
  {
    hide PrefixInt.Decode, PrefixInt.Encode, PrefixInt.FlagsOk, Pow2, HuffBit, DecodeStr;
    hide Huffman.Encode, Huffman.Decode;
    var coded := Huffman.Encode(data);
    if data != [] && |coded| < |data| {
      CodedReads(data, n, flags + Pow2(n), maxlen, rest);
    } else {
      PlainReads(data, n, flags, maxlen, rest);
    }
  }

  lemma PlainReads(data: ByteSeq, n: nat, flags: nat, maxlen: nat, rest: ByteSeq)
    requires PrefixInt.FlagsOk(flags, n) && !HuffBit(flags, n) && |data| <= maxlen && |data| < U32
    ensures var head := PrefixInt.Encode(|data|, n, flags);
            && DecodeStr(head + data + rest, n, maxlen) == Some((data, |head + data|))
            && |head| <= 10
  {
    hide PrefixInt.Decode, PrefixInt.Encode, PrefixInt.FlagsOk, HuffBit, Huffman.Decode;
    LiteralReads(data, n, flags, rest);
  }

  lemma CodedReads(data: ByteSeq, n: nat, flags: nat, maxlen: nat, rest: ByteSeq)
    requires PrefixInt.FlagsOk(flags, n) && HuffBit(flags, n) && |data| <= maxlen
    requires |Huffman.Encode(data)| <= Varint.VARINT_MAX
    ensures var coded := Huffman.Encode(data);
            var head := PrefixInt.Encode(|coded|, n, flags);
            && DecodeStr(head + coded + rest, n, maxlen) == Some((data, |head + coded|))
            && |head| <= 10
  {
    hide PrefixInt.Decode, PrefixInt.Encode, PrefixInt.FlagsOk, HuffBit;
    hide Huffman.Decode, Huffman.Encode;
    Huffman.DecodeEncode(data);
    LiteralReads(Huffman.Encode(data), n, flags, rest);
  }

  lemma LiteralReads(body: ByteSeq, n: nat, flags: nat, rest: ByteSeq)
    requires PrefixInt.FlagsOk(flags, n) && |body| <= Varint.VARINT_MAX
    ensures var head := PrefixInt.Encode(|body|, n, flags);
            var s := head + body + rest;
            && PrefixInt.Decode(s, n) == Some(PrefixInt.Read(|body|, flags, |head|))
            && |head| <= 10 && s[|head|..|head| + |body|] == body
  {
    hide PrefixInt.Decode, PrefixInt.Encode;
    PrefixInt.RoundTrip(|body|, n, flags, body + rest);
    var head := PrefixInt.Encode(|body|, n, flags);
    assert head + body + rest == head + (body + rest);
  }

  /** One field line read back. */
  lemma LineRoundTrip(f: Field, maxlen: nat, rest: ByteSeq)
    requires |f.name| <= maxlen && |f.value| <= maxlen
    ensures EncodeField(f) != []
    ensures DecodeLine(EncodeField(f) + rest, maxlen)
            == Some((Lower(f.name), f.value, |EncodeField(f)|))
    ensures |EncodeField(f)| <= |f.name| + |f.value| + 22
  {
    hide Entry, IndexLine, NameRef, NameLiteral, ValueLiteral, DecodeLine;
    var name := Lower(f.name);
    match Index(name, f.value)
    case Some(i) => IndexedLine(i, maxlen, rest);
    case None =>
      match NameIndex(name) {
        case Some(i) => NamedLine(i, f.value, maxlen, rest);
        case None => LiteralLine(name, f.value, maxlen, rest);
      }
  }

  lemma IndexedLine(i: nat, maxlen: nat, rest: ByteSeq)
    requires i < STATIC_COUNT
    ensures DecodeLine(IndexLine(i) + rest, maxlen)
            == Some((EntryName(i), EntryValue(i), |IndexLine(i)|))
    ensures |IndexLine(i)| <= 10
  {
    hide Entry, PrefixInt.Decode, PrefixInt.Encode, DecodeStr;
    SectionFlags();
    PrefixInt.RoundTrip(i, 6, 0xc0, rest);
    FirstByteFlags(i, 6, 0xc0);
  }

  lemma ValueReads(value: ByteSeq, maxlen: nat, rest: ByteSeq)
    requires |value| <= maxlen && |value| < U32
    ensures DecodeStr(ValueLiteral(value) + rest, 7, maxlen)
            == Some((value, |ValueLiteral(value)|))
    ensures |ValueLiteral(value)| <= |value| + 10
  {
    hide EncodeStr, DecodeStr, PrefixInt.FlagsOk, HuffBit;
    SectionFlags();
    StrRoundTrip(value, 7, 0, maxlen, rest);
  }

  lemma NameReads(name: ByteSeq, maxlen: nat, rest: ByteSeq)
    requires |name| <= maxlen && |name| < U32
    ensures DecodeStr(NameLiteral(name) + rest, 3, maxlen) == Some((name, |NameLiteral(name)|))
    ensures |NameLiteral(name)| <= |name| + 10
    ensures NameLiteral(name) != [] && 0x20 <= NameLiteral(name)[0] < 0x40
  {
    hide EncodeStr, DecodeStr, PrefixInt.FlagsOk, HuffBit;
    SectionFlags();
    StrRoundTrip(name, 3, 0x20, maxlen, rest);
    FirstStrByte(name);
  }

  lemma NamedLine(i: nat, value: ByteSeq, maxlen: nat, rest: ByteSeq)
    requires i < STATIC_COUNT && |value| <= maxlen && |value| < U32
    ensures var line := NameRef(i) + ValueLiteral(value);
            && DecodeLine(line + rest, maxlen) == Some((EntryName(i), value, |line|))
            && |line| <= |value| + 20
  {
    hide Entry, PrefixInt.Decode, PrefixInt.Encode, DecodeStr, ValueLiteral;
    var head, tail := NameRef(i), ValueLiteral(value);
    SectionFlags();
    ValueReads(value, maxlen, rest);
    PrefixInt.RoundTrip(i, 4, 0x50, tail + rest);
    FirstByteFlags(i, 4, 0x50);
    assert head + tail + rest == head + (tail + rest);
  }

  lemma LiteralLine(name: ByteSeq, value: ByteSeq, maxlen: nat, rest: ByteSeq)
    requires |name| <= maxlen && |name| < U32 && |value| <= maxlen && |value| < U32
    ensures var line := NameLiteral(name) + ValueLiteral(value);
            && DecodeLine(line + rest, maxlen) == Some((name, value, |line|))
            && |line| <= |name| + |value| + 20
  {
    hide Entry, PrefixInt.Decode, DecodeStr, NameLiteral, ValueLiteral;
    var head, tail := NameLiteral(name), ValueLiteral(value);
    ValueReads(value, maxlen, rest);
    NameReads(name, maxlen, tail + rest);
    assert head + tail + rest == head + (tail + rest);
  }

  lemma FirstStrByte(name: ByteSeq)
    requires PrefixInt.FlagsOk(0x20, 3) && PrefixInt.FlagsOk(0x20 + Pow2(3), 3)
    ensures EncodeStr(name, 3, 0x20) != [] && 0x20 <= EncodeStr(name, 3, 0x20)[0] < 0x40
  {
    hide PrefixInt.Encode, Huffman.Encode;
    Pow2Table();
    assert Pow2(3) == 8;
    FirstByteFlags(|Huffman.Encode(name)|, 3, 0x20 + Pow2(3));
    FirstByteFlags(|name|, 3, 0x20);
  }

  lemma FirstByteFlags(v: nat, n: nat, flags: nat)
    requires PrefixInt.FlagsOk(flags, n)
    ensures flags <= PrefixInt.Encode(v, n, flags)[0] < flags + Pow2(n)
  {
  }

  /** Fields an application may send: valid once their names are lowercased. */
  predicate Sendable(fs: seq<Field>) {
    forall f :: f in fs ==> ValidName(Lower(f.name)) && ValidValue(f.value)
  }

  lemma {:induction false} LinesRoundTrip(fs: seq<Field>, done: seq<Field>, size: nat, lim: Limits)
    requires lim.maxSize < U32 && Sendable(fs)
    requires |done| + |fs| <= lim.maxCount && size + SectionSize(fs) <= lim.maxSize
    ensures DecodeLines(EncodeFields(fs), done, size, lim) == Fields(done + LowerNames(fs))
    decreases |fs|
  {
    hide EncodeField, DecodeLine, Lower, ValidName, ValidValue, Entry;
    if fs == [] {
      assert done + LowerNames(fs) == done;
    } else {
      var f, line, rest := fs[0], EncodeField(fs[0]), EncodeFields(fs[1..]);
      LineRoundTrip(f, lim.maxSize, rest);
      assert (line + rest)[|line|..] == rest;
      var taken := Field(Lower(f.name), f.value);
      LinesRoundTrip(fs[1..], done + [taken], size + FieldSize(f), lim);
      assert done + [taken] + LowerNames(fs[1..]) == done + LowerNames(fs);
    }
  }

  /** Decoding an encoded section returns the same fields with their names lowercased, for every
      list of valid fields within the limits. */
  lemma SectionRoundTrip(fs: seq<Field>, lim: Limits)
    requires lim.maxSize < U32 && Sendable(fs)
    requires |fs| <= lim.maxCount && SectionSize(fs) <= lim.maxSize
    ensures DecodeSection(EncodeSection(fs), lim) == Fields(LowerNames(fs))
  {
    hide EncodeFields, DecodeLines, PrefixInt.Decode, Sendable;
    var lines := EncodeFields(fs);
    ZeroPrefix(8, [0] + lines);
    ZeroPrefix(7, lines);
    assert EncodeSection(fs) == [0] + ([0] + lines);
    LinesRoundTrip(fs, [], 0, lim);
    assert [] + LowerNames(fs) == LowerNames(fs);
  }

  lemma ZeroPrefix(n: nat, rest: ByteSeq)
    requires 0 < n <= 8
    ensures PrefixInt.Decode([0] + rest, n) == Some(PrefixInt.Read(0, 0, 1))
  {
    assert Pow2(n) >= 2;
    DivModUnique(0, Pow2(n), 0, 0);
  }

  /** The encoder's bound on its output is never exceeded. */
  lemma {:induction false} EncodedBound(fs: seq<Field>)
    ensures |EncodeFields(fs)| <= Bound(fs)
  {
    hide EncodeField;
    if fs != [] {
      LineRoundTrip(fs[0], |fs[0].name| + |fs[0].value|, []);
      EncodedBound(fs[1..]);
    }
  }

  /** The room the encoder sets aside for field lines. */
  function Bound(fs: seq<Field>): nat {
    if fs == [] then 0 else |fs[0].name| + |fs[0].value| + 22 + Bound(fs[1..])
  }

  /** Whatever the decoder accepts is valid and within the limits, whoever encoded it. */
  lemma {:induction false} DecodedIsValid(s: ByteSeq, done: seq<Field>, size: nat, lim: Limits)
    requires lim.maxSize < U32 && AllValid(done)
    requires |done| <= lim.maxCount && SectionSize(done) == size <= lim.maxSize
    requires DecodeLines(s, done, size, lim).Fields?
    ensures var fs := DecodeLines(s, done, size, lim).fields;
            AllValid(fs) && |fs| <= lim.maxCount && SectionSize(fs) <= lim.maxSize
    decreases |s|
  {
    hide DecodeLine, ValidName, ValidValue, Entry;
    if s != [] {
      var (name, value, w) := DecodeLine(s, lim.maxSize).value;
      SectionSizeAppend(done, Field(name, value));
      DecodedIsValid(s[w..], done + [Field(name, value)], size + |name| + |value| + 32, lim);
    }
  }

  predicate AllValid(fs: seq<Field>) {
    forall f :: f in fs ==> ValidName(f.name) && ValidValue(f.value)
  }

  lemma {:induction false} SectionSizeAppend(fs: seq<Field>, f: Field)
    ensures SectionSize(fs + [f]) == SectionSize(fs) + FieldSize(f)
  {
    if fs != [] {
      SectionSizeAppend(fs[1..], f);
      assert (fs + [f])[1..] == fs[1..] + [f];
    }
  }

  /** A section the decoder accepts meets every limit and holds only valid fields. */
  lemma SectionIsValid(s: ByteSeq, lim: Limits)
    requires lim.maxSize < U32 && DecodeSection(s, lim).Fields?
    ensures var fs := DecodeSection(s, lim).fields;
            AllValid(fs) && |fs| <= lim.maxCount && SectionSize(fs) <= lim.maxSize
  {
    hide DecodeLines, PrefixInt.Decode, ValidName, ValidValue;
    var r := PrefixInt.Decode(s, 8).value;
    var b := PrefixInt.Decode(s[r.width..], 7).value;
    DecodedIsValid(s[r.width..][b.width..], [], 0, lim);
  }
}
