/** The QPACK encoder and decoder as they run over cursors and scratch buffers, each proved to
    compute the functions of module Qpack. */
module QpackCoder {
  import opened Bytes
  import opened HttpText
  import opened Cursor
  import opened Qpack
  import opened QpackStatic
  import Huffman
  import PrefixInt
  import Varint

  /** A length with its flags, then the octets it counts. */
  method WriteCounted(wr: Writer, body: ByteSeq, n: nat, flags: nat)
    requires wr.Valid()
    modifies wr, wr.buf
    ensures wr.Valid()
    ensures !wr.bad == old(wr.Fits(|PrefixInt.Encode(|body|, n, flags) + body|))
    ensures !wr.bad ==>
              wr.Written() == old(wr.Written()) + (PrefixInt.Encode(|body|, n, flags) + body)
  {
    hide PrefixInt.Encode, PrefixInt.FlagsOk;
    PrefixInt.WriteInt(wr, |body|, n, flags);
    wr.PutBytes(body);
  }

  method WriteStr(wr: Writer, data: ByteSeq, n: nat, flags: nat, huff: array<Byte>)
    requires wr.Valid() && huff != wr.buf && |data| <= huff.Length
    modifies wr, wr.buf, huff
    ensures wr.Valid()
    ensures !wr.bad == old(wr.Fits(|EncodeStr(data, n, flags)|))
    ensures !wr.bad ==> wr.Written() == old(wr.Written()) + EncodeStr(data, n, flags)
  {
    hide PrefixInt.Encode, PrefixInt.FlagsOk, Huffman.Encode, Pow2;
    if |data| > 0 {
      var hlen := Huffman.HuffEncode(huff, data);
      Huffman.EncodeNonEmpty(data);
      if 0 < hlen < |data| {
        WriteCounted(wr, huff[..hlen], n, flags + Pow2(n));
        return;
      }
    }
    WriteCounted(wr, data, n, flags);
  }

  method ReadStr(rd: Reader, n: nat, maxlen: nat) returns (ok: bool, out: ByteSeq)
    requires rd.Valid() && n <= 8
    modifies rd
    ensures rd.Valid()
    ensures ok <==> !old(rd.bad) && DecodeStr(old(rd.Rest()), n, maxlen).Some?
    ensures ok ==> var (s, w) := DecodeStr(old(rd.Rest()), n, maxlen).value;
                   !rd.bad && out == s && rd.Rest() == old(rd.Rest())[w..]
  {
    hide PrefixInt.Decode, Huffman.Decode, HuffBit;
    ghost var s := rd.Rest();
    var len, fl := PrefixInt.ReadInt(rd, n);
    if rd.bad || len > rd.Left() {
      return false, [];
    }
    ghost var w := PrefixInt.Decode(s, n).value.width;
    var data := rd.Take(len);
    assert data == s[w..w + len] && rd.Rest() == s[w + len..];
    if !HuffBit(fl, n) {
      if len > maxlen {
        return false, [];
      }
      return true, data;
    }
    var bufsz := Huffman.MaxDecoded(len);
    if bufsz > maxlen {
      bufsz := maxlen + 1;
    }
    var buf := new Byte[bufsz](_ => 0);
    var dlen;
    ok, dlen := Huffman.HuffDecode(buf, data);
    if Huffman.Decode(data).Some? {
      Huffman.MaxDecodedIsEnough(data);
    }
    if ok && dlen > maxlen {
      ok := false;
    }
    out := buf[..dlen];
  }

  method IsValidFieldName(name: ByteSeq) returns (ok: bool)
    ensures ok == ValidName(name)
  {
    if |name| == 0 {
      return false;
    }
    for pos := 0 to |name|
      invariant forall i :: 0 <= i < pos ==> NameByteOk(name[i], i)
    {
      var c := name[pos];
      if c == COLON && pos == 0 {
        continue;
      }
      if 'A' as int <= c <= 'Z' as int {
        assert !NameByteOk(name[pos], pos);
        return false;
      }
      if !IsTokenChar(c) {
        assert !NameByteOk(name[pos], pos);
        return false;
      }
    }
    return !(|name| == 1 && name[0] == COLON);
  }

  method IsValidFieldValue(value: ByteSeq) returns (ok: bool)
    ensures ok == ValidValue(value)
  {
    if |value| == 0 {
      return true;
    }
    if IsOWS(value[0]) || IsOWS(value[|value| - 1]) {
      return false;
    }
    for k := 0 to |value|
      invariant forall i :: 0 <= i < k ==> ValueByteOk(value[i])
    {
      var c := value[k];
      if c == 0 || c == '\r' as int || c == '\n' as int {
        assert !ValueByteOk(value[k]);
        return false;
      }
    }
    return true;
  }

  /** Encodes one field line. */
  method WriteField(wr: Writer, f: Field, huff: array<Byte>)
    requires wr.Valid() && huff != wr.buf
    requires |f.name| <= huff.Length && |f.value| <= huff.Length
    modifies wr, wr.buf, huff
    ensures wr.Valid()
    ensures !wr.bad == old(wr.Fits(|EncodeField(f)|))
    ensures !wr.bad ==> wr.Written() == old(wr.Written()) + EncodeField(f)
  {
    hide Entry, Index, NameIndex, PrefixInt.Encode, PrefixInt.FlagsOk, EncodeStr, Pow2, LowerBytes;
    SectionFlags();
    var lname := Lower(f.name);
    var idx := Find(lname, f.value);
    if idx.Some? {
      PrefixInt.WriteInt(wr, idx.value, 6, 0xc0);
      return;
    }
    idx := FindName(lname);
    if idx.Some? {
      PrefixInt.WriteInt(wr, idx.value, 4, 0x50);
    } else {
      WriteStr(wr, lname, 3, 0x20, huff);
    }
    WriteStr(wr, f.value, 7, 0, huff);
  }

  lemma {:induction false} BoundAppend(fs: seq<Field>, f: Field)
    ensures Bound(fs + [f]) == Bound(fs) + |f.name| + |f.value| + 22
    ensures EncodeFields(fs + [f]) == EncodeFields(fs) + EncodeField(f)
  {
    hide EncodeField;
    if fs == [] {
      assert ([f])[1..] == [];
    } else {
      BoundAppend(fs[1..], f);
      assert (fs + [f])[1..] == fs[1..] + [f];
    }
  }

  lemma {:induction false} BoundPrefix(fs: seq<Field>, i: nat)
    requires i <= |fs|
    ensures Bound(fs[..i]) <= Bound(fs)
    decreases |fs| - i
  {
    if i == |fs| {
      assert fs[..i] == fs;
    } else {
      assert fs[..i + 1] == fs[..i] + [fs[i]];
      BoundAppend(fs[..i], fs[i]);
      BoundPrefix(fs, i + 1);
    }
  }

  /** Encodes the field lines, which fit if the encoder's bound does. */
  method WriteFields(wr: Writer, fs: seq<Field>, huff: array<Byte>)
    requires wr.Valid() && huff != wr.buf && wr.Fits(Bound(fs))
    requires forall k :: 0 <= k < |fs| ==> |fs[k].name| <= huff.Length && |fs[k].value| <= huff.Length
    modifies wr, wr.buf, huff
    ensures wr.Valid() && !wr.bad && wr.Written() == old(wr.Written()) + EncodeFields(fs)
  {
    hide EncodeField, EncodeFields, Bound;
    BoundStart(fs[..0]);
    for i := 0 to |fs|
      invariant wr.Valid() && !wr.bad
      invariant wr.Written() == old(wr.Written()) + EncodeFields(fs[..i])
    {
      assert fs[..i + 1] == fs[..i] + [fs[i]];
      BoundAppend(fs[..i], fs[i]);
      EncodedBound(fs[..i + 1]);
      BoundPrefix(fs, i + 1);
      WriteField(wr, fs[i], huff);
    }
    assert fs[..|fs|] == fs;
  }

  /** Encodes a field section. The buffer is sized from a bound worked out beforehand, and the
      encoder always succeeds: no write ever runs past it. */
  method QpackEncode(fs: seq<Field>) returns (ok: bool, out: ByteSeq)
    ensures ok && out == EncodeSection(fs)
  {
    hide EncodeFields, Bound;
    var bound, widest := Measure(fs);
    var buf := new Byte[bound](_ => 0);
    var huff := new Byte[widest](_ => 0);
    var wr := new Writer(buf);
    wr.Put8(0x00);
    wr.Put8(0x00);
    WriteFields(wr, fs, huff);
    ok, out := !wr.bad, buf[..wr.pos];
  }

  /** The room to set aside for a section, and the longest string in it. */
  method Measure(fs: seq<Field>) returns (bound: nat, widest: nat)
    ensures bound == 2 + Bound(fs)
    ensures forall k :: 0 <= k < |fs| ==> |fs[k].name| <= widest && |fs[k].value| <= widest
  {
    hide EncodeField, EncodeFields, Bound;
    bound, widest := 2, 0;
    BoundStart(fs[..0]);
    for i := 0 to |fs|
      invariant bound == 2 + Bound(fs[..i])
      invariant forall k :: 0 <= k < i ==> |fs[k].name| <= widest && |fs[k].value| <= widest
    {
      assert fs[..i + 1] == fs[..i] + [fs[i]];
      BoundAppend(fs[..i], fs[i]);
      var nl, vl := |fs[i].name|, |fs[i].value|;
      bound := bound + nl + vl + 22;
      widest := if widest < nl then nl else widest;
      widest := if widest < vl then vl else widest;
    }
    assert fs[..|fs|] == fs;
  }

  lemma BoundStart(none: seq<Field>)
    requires none == []
    ensures Bound(none) == 0 && EncodeFields(none) == []
  {
  }

  /** Reads one field line. */
  method ReadLine(rd: Reader, maxlen: nat) returns (ok: bool, name: ByteSeq, value: ByteSeq)
    requires rd.Valid() && !rd.bad && rd.Rest() != []
    modifies rd
    ensures rd.Valid()
    ensures ok <==> DecodeLine(old(rd.Rest()), maxlen).Some?
    ensures ok ==> var (n, v, w) := DecodeLine(old(rd.Rest()), maxlen).value;
                   !rd.bad && name == n && value == v && rd.Rest() == old(rd.Rest())[w..]
  {
    hide Entry, PrefixInt.Decode, DecodeStr;
    ghost var s := rd.Rest();
    var b := rd.data[rd.pos];
    ok, name, value := false, [], [];
    if b >= 0x80 {
      var idx, flags := PrefixInt.ReadInt(rd, 6);
      if rd.bad || flags / 0x40 % 2 == 0 || idx >= STATIC_COUNT {
        return;
      }
      return true, EntryName(idx), EntryValue(idx);
    } else if b >= 0x40 {
      var idx, flags := PrefixInt.ReadInt(rd, 4);
      if rd.bad || flags / 0x10 % 2 == 0 || idx >= STATIC_COUNT {
        return;
      }
      name := EntryName(idx);
      ok, value := ReadStr(rd, 7, maxlen);
    } else if b >= 0x20 {
      ok, name := ReadStr(rd, 3, maxlen);
      if ok {
        ok, value := ReadStr(rd, 7, maxlen);
      }
    }
  }

  /** Decodes a field section, answering 0 or the error code the failure calls for. */
  method QpackDecode(s: ByteSeq, lim: Limits) returns (out: seq<Field>, err: nat)
    requires lim.maxSize < U32
    ensures DecodeSection(s, lim) == if err == 0 then Fields(out) else Failed(err, out)
  {
    hide Entry, PrefixInt.Decode, DecodeLine, ValidName, ValidValue;
    out, err := [], DECOMPRESSION_FAILED;
    var rd := new Reader(s);
    var ric, flags := PrefixInt.ReadInt(rd, 8);
    if rd.bad || ric != 0 {
      return;
    }
    var base;
    base, flags := PrefixInt.ReadInt(rd, 7);
    if rd.bad || flags >= 0x80 {
      return;
    }
    err := 0;
    var size: nat := 0;
    ghost var all := DecodeLines(rd.Rest(), [], 0, lim);
    while rd.Left() > 0
      invariant fresh(rd) && rd.Valid() && !rd.bad
      invariant all == DecodeLines(rd.Rest(), out, size, lim)
      decreases |rd.Rest()|
    {
      var ok, name, value := ReadLine(rd, lim.maxSize);
      if !ok {
        err := DECOMPRESSION_FAILED;
        return;
      }
      var nameOk := IsValidFieldName(name);
      var valueOk := IsValidFieldValue(value);
      if !nameOk || !valueOk {
        err := MESSAGE_ERROR;
        return;
      }
      size := size + |name| + |value| + 32;
      if |out| + 1 > lim.maxCount || size > lim.maxSize {
        err := MESSAGE_ERROR;
        return;
      }
      out := out + [Field(name, value)];
    }
  }
}
