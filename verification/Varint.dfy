/** Variable-length integers (section 16 of RFC 9000), and the bounds-checked cursors that the
    HTTP/3 and QUIC codecs read and write through. */
module Varint {
  import opened Bytes

  const VARINT_MAX: nat := 0x3fff_ffff_ffff_ffff

  /** Bytes the shortest encoding of `v` takes, or 0 if there is none. */
  function Size(v: nat): (n: nat)
    ensures n in {0, 1, 2, 4, 8}
  {
    if v < 0x40 then 1
    else if v < 0x4000 then 2
    else if v < 0x4000_0000 then 4
    else if v <= VARINT_MAX then 8
    else 0
  }

  lemma SizeZero(v: nat)
    ensures Size(v) == 0 <==> v > VARINT_MAX
  {
  }

  function BigEndian(v: nat, n: nat): (r: ByteSeq)
    ensures |r| == n
  {
    if n == 0 then [] else BigEndian(v / 256, n - 1) + [v % 256]
  }

  function FromBigEndian(s: ByteSeq): nat {
    if s == [] then 0 else 256 * FromBigEndian(s[..|s| - 1]) + s[|s| - 1]
  }

  /** The two bits that announce a width, in place at the top of the first byte. */
  function Tag(n: nat): nat {
    if n == 8 then 0xc0 else if n == 4 then 0x80 else if n == 2 then 0x40 else 0
  }

  /** The width a first byte announces. */
  function Width(b: Byte): (n: nat)
    ensures n in {1, 2, 4, 8}
  {
    if b < 0x40 then 1 else if b < 0x80 then 2 else if b < 0xc0 then 4 else 8
  }

  function Encode(v: nat): (r: ByteSeq)
    requires v <= VARINT_MAX
    ensures |r| == Size(v) && Width(r[0]) == |r|
  {
    var n := Size(v);
    TopByteFits(v, n);
    var r := BigEndian(v, n);
    r[0 := r[0] + Tag(n)]
  }

  /** The integer at the front of `s` and the bytes it takes, if it is all there. */
  function Decode(s: ByteSeq): (r: Option<(nat, nat)>)
    ensures r.Some? ==> r.value.1 in {1, 2, 4, 8} && r.value.1 <= |s|
  {
    if s == [] || |s| < Width(s[0]) then None
    else
      var n := Width(s[0]);
      Some((FromBigEndian([s[0] % 64] + s[1..n]), n))
  }

  /** A number and one byte more of it. */
  function Then(v: nat, b: nat): nat { 256 * v + b }

  lemma TwoBytes(a: Byte, b: Byte)
    ensures FromBigEndian([a, b]) == Then(a, b)
  {
    assert [a, b][..1] == [a];
    OneByte(a);
  }

  lemma FourBytes(s: ByteSeq)
    requires |s| == 4
    ensures FromBigEndian(s) == Then(Then(Then(s[0], s[1]), s[2]), s[3])
  {
    assert s[..3][..2] == [s[0], s[1]];
    TwoBytes(s[0], s[1]);
  }

  lemma EightBytes(s: ByteSeq)
    requires |s| == 8
    ensures FromBigEndian(s) == 0x1_0000_0000 * FromBigEndian(s[..4]) + FromBigEndian(s[4..])
  {
    assert s[..7][..6] == s[..6] && s[..6][..5] == s[..5] && s[..5][..4] == s[..4];
    assert FromBigEndian(s[..7]) == Then(FromBigEndian(s[..6]), s[6]);
    assert FromBigEndian(s[..6]) == Then(FromBigEndian(s[..5]), s[5]);
    assert FromBigEndian(s[..5]) == Then(FromBigEndian(s[..4]), s[4]);
    FourBytes(s[4..]);
  }

  /** The two high bits of the first byte give the length, one, two, four or eight; the other bits of all
      the bytes, most significant first, give the value (section 16 of RFC 9000). */
  lemma ValueExactly(s: ByteSeq)
    ensures Decode(s).None? <==> s == [] || |s| < Pow2(s[0] / 64)
    ensures s != [] && s[0] < 64 ==> Decode(s) == Some((s[0], 1))
    ensures |s| >= 2 && 64 <= s[0] < 128 ==> Decode(s) == Some((Then(s[0] - 64, s[1]), 2))
    ensures |s| >= 4 && 128 <= s[0] < 192 ==>
              Decode(s) == Some((Then(Then(Then(s[0] - 128, s[1]), s[2]), s[3]), 4))
    ensures |s| >= 8 && 192 <= s[0] ==>
              Decode(s) == Some((0x1_0000_0000 * Then(Then(Then(s[0] - 192, s[1]), s[2]), s[3])
                                 + Then(Then(Then(s[4], s[5]), s[6]), s[7]), 8))
  {
    hide Decode, Then;
    Widths(s);
    if s != [] && |s| >= Width(s[0]) {
      Reads(s);
    }
  }

  lemma Widths(s: ByteSeq)
    ensures Decode(s).None? <==> s == [] || |s| < Pow2(s[0] / 64)
    ensures s != [] ==> Width(s[0]) == Pow2(s[0] / 64)
  {
    hide FromBigEndian;
    assert Pow2(0) == 1 && Pow2(1) == 2 && Pow2(2) == 4 && Pow2(3) == 8;
  }

  lemma Reads(s: ByteSeq)
    requires s != [] && |s| >= Width(s[0])
    ensures s[0] < 64 ==> Decode(s) == Some((s[0], 1))
    ensures 64 <= s[0] < 128 ==> Decode(s) == Some((Then(s[0] - 64, s[1]), 2))
    ensures 128 <= s[0] < 192 ==> Decode(s) == Some((Then(Then(Then(s[0] - 128, s[1]), s[2]), s[3]), 4))
    ensures 192 <= s[0] ==>
              Decode(s) == Some((0x1_0000_0000 * Then(Then(Then(s[0] - 192, s[1]), s[2]), s[3])
                                 + Then(Then(Then(s[4], s[5]), s[6]), s[7]), 8))
  {
    hide FromBigEndian, Then;
    var n := Width(s[0]);
    var t := [s[0] % 64] + s[1..n];
    if n == 1 {
      OneByte(s[0]);
      assert t == [s[0]];
    } else if n == 2 {
      TwoBytes(s[0] - 64, s[1]);
      assert t == [s[0] - 64, s[1]];
    } else if n == 4 {
      FourBytes(t);
    } else {
      EightBytes(t);
      FourBytes(t[..4]);
      FourBytes(t[4..]);
    }
  }

  lemma OneByte(b: Byte)
    ensures FromBigEndian([b]) == b
  {
    assert [b][..0] == [];
  }

  // ----- Big-endian arithmetic

  lemma {:induction false} FirstByte(v: nat, n: nat)
    requires n > 0
    ensures BigEndian(v, n) == [Shr(v, 8 * (n - 1)) % 256] + BigEndian(v, n - 1)
  {
    if n == 1 {
      assert Pow2(0) == 1;
    } else {
      FirstByte(v / 256, n - 1);
      ShrShr(v, 8 * (n - 2));
    }
  }

  lemma {:induction false} ByteIndex(v: nat, n: nat, i: nat)
    requires i < n
    ensures BigEndian(v, n)[i] == Shr(v, (n - 1 - i) * 8) % 256
    decreases n
  {
    FirstByte(v, n);
    if i > 0 {
      ByteIndex(v, n - 1, i - 1);
    }
  }

  lemma ShrShr(v: nat, h: nat)
    ensures Shr(v / 256, h) == Shr(v, h + 8)
  {
    Pow2Table();
    Pow2Add(h, 8);
    var p, q := Pow2(h), Shr(v / 256, h);
    var r := v / 256 - q * p;
    assert v == q * (p * 256) + (r * 256 + v % 256);
    DivModUnique(v, p * 256, q, r * 256 + v % 256);
  }

  lemma Pow2Widths()
    ensures Pow2(0) == 1 && Pow2(8) == 0x100 && Pow2(24) == 0x100_0000
    ensures Pow2(56) == 0x100_0000_0000_0000
  {
    Pow2Table();
    Pow2Add(8, 8);
    Pow2Add(16, 8);
    Pow2Add(24, 24);
    Pow2Add(48, 8);
  }

  lemma ShrSmall(v: nat, h: nat, b: nat)
    requires v < b * Pow2(h)
    ensures Shr(v, h) < b
  {
    MulMonotone(b, Shr(v, h), Pow2(h));
  }

  lemma TopByteFits(v: nat, n: nat)
    requires v <= VARINT_MAX && n == Size(v)
    ensures n > 0 && BigEndian(v, n)[0] < 64
  {
    FirstByte(v, n);
    Pow2Widths();
    ShrSmall(v, 8 * (n - 1), 64);
  }

  lemma {:induction false} FromBigEndianInverts(v: nat, n: nat)
    requires v < Pow2(8 * n)
    ensures FromBigEndian(BigEndian(v, n)) == v
    decreases n
  {
    if n > 0 {
      var s := BigEndian(v, n);
      assert s[..n - 1] == BigEndian(v / 256, n - 1);
      Pow2Table();
      Pow2Add(8 * (n - 1), 8);
      FromBigEndianInverts(v / 256, n - 1);
    }
  }

  lemma {:induction false} FromBigEndianBound(s: ByteSeq)
    ensures FromBigEndian(s) < Pow2(8 * |s|)
  {
    if s != [] {
      FromBigEndianBound(s[..|s| - 1]);
      Pow2Table();
      Pow2Add(8 * (|s| - 1), 8);
    }
  }

  lemma SizeFits(v: nat)
    requires v <= VARINT_MAX
    ensures v < Pow2(8 * Size(v))
  {
    Pow2Table();
    Pow2Add(8, 8);
    Pow2Add(16, 16);
  }

  // ----- Properties of the codec

  /** An integer read back from its encoding, whatever follows it, is itself. */
  lemma RoundTrip(v: nat, rest: ByteSeq)
    requires v <= VARINT_MAX
    ensures Decode(Encode(v) + rest) == Some((v, Size(v)))
  {
    var n := Size(v);
    TopByteFits(v, n);
    SizeFits(v);
    FromBigEndianInverts(v, n);
    var s := Encode(v) + rest;
    assert [s[0] % 64] + s[1..n] == BigEndian(v, n);
  }

  lemma {:induction false} TopBoundsValue(t: nat, s: ByteSeq)
    requires t < 64
    ensures FromBigEndian([t] + s) < 64 * Pow2(8 * |s|)
  {
    if s != [] {
      var m := |s| - 1;
      TopBoundsValue(t, s[..m]);
      assert ([t] + s)[..|s|] == [t] + s[..m];
      Pow2Table();
      Pow2Add(8 * m, 8);
    } else {
      assert ([t] + s)[..0] == [];
    }
  }

  /** Whatever is read can be written again, in no more bytes than it was read from. */
  lemma DecodedFits(s: ByteSeq)
    requires Decode(s).Some?
    ensures Decode(s).value.0 <= VARINT_MAX
    ensures Size(Decode(s).value.0) <= Decode(s).value.1
  {
    var n := Width(s[0]);
    TopBoundsValue(s[0] % 64, s[1..n]);
    Pow2Widths();
  }

  /** Bytes after a complete integer do not change how it reads. */
  lemma DecodeExtends(s: ByteSeq, more: ByteSeq)
    requires Decode(s).Some?
    ensures Decode(s + more) == Decode(s)
  {
    var n := Width(s[0]);
    assert (s + more)[1..n] == s[1..n];
  }
}
