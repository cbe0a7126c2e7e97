/** Bytes, bits and the powers of two that relate them.

    A C shift or mask is written with `*`, `/` and `%` on unbounded integers; `Bits` gives the
    big-endian bit string such an integer stands for. */
module Bytes {

  type Byte = b: int | 0 <= b < 256

  type ByteSeq = seq<Byte>

  datatype Option<+T> = None | Some(value: T)

  const U64: nat := 0x1_0000_0000_0000_0000

  function Min(a: nat, b: nat): nat { if a <= b then a else b }

  function Pow2(n: nat): (r: nat)
    ensures r >= 1
  {
    if n == 0 then 1 else 2 * Pow2(n - 1)
  }

  lemma {:induction false} Pow2Add(m: nat, n: nat)
    ensures Pow2(m + n) == Pow2(m) * Pow2(n)
  {
    if m > 0 {
      Pow2Add(m - 1, n);
      assert 2 * (Pow2(m - 1) * Pow2(n)) == (2 * Pow2(m - 1)) * Pow2(n);
    }
  }

  lemma {:induction false} Pow2Grows(a: nat, b: nat)
    requires a <= b
    ensures Pow2(a) <= Pow2(b)
    decreases b
  {
    if a < b {
      Pow2Grows(a, b - 1);
    }
  }

  lemma Pow2Table()
    ensures Pow2(5) == 32 && Pow2(6) == 64 && Pow2(7) == 128 && Pow2(8) == 256
    ensures Pow2(31) == 0x8000_0000 && 2 * Pow2(63) == U64 && Pow2(64) == U64
  {
    assert Pow2(8) == 256 && Pow2(15) == 0x8000;
    Pow2Add(8, 8);
    Pow2Add(16, 15);
    Pow2Add(16, 16);
    Pow2Add(32, 32);
    assert Pow2(64) == 2 * Pow2(63);
  }

  /** The `n` low bits of `v`, most significant first. */
  function Bits(v: nat, n: nat): (r: seq<bool>)
    ensures |r| == n
  {
    if n == 0 then [] else Bits(v / 2, n - 1) + [v % 2 == 1]
  }

  function Ones(n: nat): (r: seq<bool>)
  {
    seq(n, _ => true)
  }

  lemma {:induction false} BitsConcat(v: nat, m: nat, c: nat, n: nat)
    requires c < Pow2(n)
    ensures Bits(v * Pow2(n) + c, m + n) == Bits(v, m) + Bits(c, n)
    decreases n
  {
    if n > 0 {
      var w := v * Pow2(n) + c;
      assert w == 2 * (v * Pow2(n - 1)) + c;
      assert w / 2 == v * Pow2(n - 1) + c / 2 && w % 2 == c % 2;
      BitsConcat(v, m, c / 2, n - 1);
    }
  }

  lemma {:induction false} BitsOfRemainder(v: nat, n: nat, k: nat)
    requires n <= k
    ensures Bits(v % Pow2(k), n) == Bits(v, n)
    decreases n
  {
    if n > 0 {
      var p, q, r := Pow2(k - 1), v / Pow2(k), v % Pow2(k);
      assert v == q * (2 * p) + r;
      assert v / 2 == q * p + r / 2 && v % 2 == r % 2 by {
        assert v == 2 * (q * p) + r;
      }
      DivModUnique(v / 2, p, q, r / 2);
      BitsOfRemainder(v / 2, n - 1, k - 1);
    }
  }

  lemma MulAtLeast(x: int, d: int)
    requires x >= 1 && d >= 0
    ensures x * d >= d
  {
  }

  lemma MulMonotone(a: int, b: int, d: int)
    requires d >= 0
    ensures a <= b ==> a * d <= b * d
  {
  }

  lemma DivModUnique(v: int, d: int, q: int, r: int)
    requires d > 0 && 0 <= r < d && v == q * d + r
    ensures v / d == q && v % d == r
  {
    var k := v / d - q;
    assert k * d == r - v % d;
    if k > 0 {
      MulAtLeast(k, d);
    } else if k < 0 {
      MulAtLeast(-k, d);
    }
  }

  lemma DivMod(v: nat, d: nat)
    requires d > 0
    ensures v == (v / d) * d + v % d
    ensures 0 <= v % d < d && v / d >= 0
  {
  }

  lemma BitsSplitAt(v: nat, k: nat, h: nat, q: nat, r: nat)
    requires r < Pow2(h) && v == q * Pow2(h) + r
    ensures Bits(v, k + h) == Bits(q, k) + Bits(v, h)
  {
    BitsConcat(q, k, r, h);
    BitsConcat(q, 0, r, h);
  }

  /** The `n` low bits of `v`, as a number. */
  function Low(v: nat, n: nat): (r: nat)
    ensures r < Pow2(n) && r <= v
  {
    DivMod(v, Pow2(n));
    v % Pow2(n)
  }

  /** `v >> h`. */
  function Shr(v: nat, h: nat): (q: nat)
    ensures q * Pow2(h) <= v < q * Pow2(h) + Pow2(h)
  {
    DivMod(v, Pow2(h));
    v / Pow2(h)
  }

  /** The bits of `v` are the bits above position `h` followed by the `h` bits below it. */
  lemma {:induction false} BitsSplit(v: nat, k: nat, h: nat)
    ensures Bits(v, k + h) == Bits(Shr(v, h), k) + Bits(v, h)
  {
    var q := Shr(v, h);
    BitsSplitAt(v, k, h, q, v - q * Pow2(h));
  }

  lemma {:induction false} BitsInjective(a: nat, b: nat, n: nat)
    requires a < Pow2(n) && b < Pow2(n)
    requires Bits(a, n) == Bits(b, n)
    ensures a == b
    decreases n
  {
    if n > 0 {
      var x, y := Bits(a, n), Bits(b, n);
      assert x[n - 1] == y[n - 1];
      assert x[..n - 1] == Bits(a / 2, n - 1) && y[..n - 1] == Bits(b / 2, n - 1);
      BitsInjective(a / 2, b / 2, n - 1);
    }
  }

  lemma {:induction false} BitsOfOnes(n: nat)
    ensures Bits(Pow2(n) - 1, n) == Ones(n)
  {
    if n > 0 {
      BitsOfOnes(n - 1);
      assert (Pow2(n) - 1) / 2 == Pow2(n - 1) - 1;
    }
  }

  /** The number a bit string stands for. */
  function Value(bits: seq<bool>): (v: nat)
    ensures v < Pow2(|bits|)
    ensures Bits(v, |bits|) == bits
  {
    if bits == [] then 0
    else
      var n := |bits| - 1;
      var hi := Value(bits[..n]);
      var v := 2 * hi + (if bits[n] then 1 else 0);
      assert v / 2 == hi;
      v
  }

  /** The bits of a byte string, each byte most significant bit first. */
  function Unpack(data: ByteSeq): (r: seq<bool>)
    ensures |r| == 8 * |data|
  {
    if data == [] then [] else Unpack(data[..|data| - 1]) + Bits(data[|data| - 1], 8)
  }

  lemma UnpackAppend(data: ByteSeq, b: Byte)
    ensures Unpack(data + [b]) == Unpack(data) + Bits(b, 8)
  {
    assert (data + [b])[..|data|] == data;
  }

  lemma {:induction false} UnpackInjective(a: ByteSeq, b: ByteSeq)
    requires Unpack(a) == Unpack(b)
    ensures a == b
    decreases |a|
  {
    assert |a| == |b|;
    if a != [] {
      var n := |a| - 1;
      var x, y := Unpack(a), Unpack(b);
      assert x[..8 * n] == Unpack(a[..n]) && y[..8 * n] == Unpack(b[..n]);
      assert x[8 * n..] == Bits(a[n], 8) && y[8 * n..] == Bits(b[n], 8);
      assert Pow2(8) == 256 by { Pow2Table(); }
      BitsInjective(a[n], b[n], 8);
      UnpackInjective(a[..n], b[..n]);
    }
  }

  /** The byte string with the given bits. */
  function Pack(bits: seq<bool>): (r: ByteSeq)
    requires |bits| % 8 == 0
    ensures Unpack(r) == bits
  {
    if bits == [] then []
    else
      var n := |bits| - 8;
      PackLast(Pack(bits[..n]), bits);
      Pack(bits[..n]) + [Value(bits[n..])]
  }

  lemma PackLast(r: ByteSeq, bits: seq<bool>)
    requires |bits| >= 8 && Unpack(r) == bits[..|bits| - 8]
    ensures Value(bits[|bits| - 8..]) < 256
    ensures Unpack(r + [Value(bits[|bits| - 8..])]) == bits
  {
    hide Pow2, Unpack, Bits;
    var n := |bits| - 8;
    assert Pow2(8) == 256 by { Pow2Table(); }
    UnpackAppend(r, Value(bits[n..]));
    assert bits == bits[..n] + bits[n..];
  }
}
