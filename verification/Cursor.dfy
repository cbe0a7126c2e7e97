/** The bounds-checked cursors of the wire codecs. A read or write that does not fit sets `bad`,
    which then stays set, so a codec may run a whole sequence and look at the flag once. */
module Cursor {
  import opened Bytes
  import Varint

  class Reader {
    const data: ByteSeq
    var pos: nat
    var bad: bool

    ghost predicate Valid()
      reads this
    {
      pos <= |data|
    }

    ghost function Rest(): ByteSeq
      requires Valid()
      reads this
    {
      data[pos..]
    }

    constructor (s: ByteSeq)
      ensures Valid() && Rest() == s && !bad
    {
      data, pos, bad := s, 0, false;
    }

    function Left(): (n: nat)
      requires Valid()
      reads this
      ensures n == if bad then 0 else |Rest()|
    {
      if bad then 0 else |data| - pos
    }

    method Take(n: nat) returns (s: ByteSeq)
      requires Valid()
      modifies this
      ensures Valid() && (old(bad) ==> bad)
      ensures !bad <==> !old(bad) && n <= |old(Rest())|
      ensures if bad then s == [] && pos == old(pos)
              else s == old(Rest())[..n] && Rest() == old(Rest())[n..]
    {
      if bad || |data| - pos < n {
        bad := true;
        return [];
      }
      s := data[pos..pos + n];
      pos := pos + n;
    }

    method Get8() returns (b: Byte)
      requires Valid()
      modifies this
      ensures Valid()
      ensures !bad <==> !old(bad) && old(Rest()) != []
      ensures if bad then b == 0 && pos == old(pos)
              else b == old(Rest())[0] && Rest() == old(Rest())[1..]
    {
      var s := Take(1);
      b := if s == [] then 0 else s[0];
    }

    method GetVarint() returns (v: nat)
      requires Valid()
      modifies this
      ensures Valid()
      ensures !bad <==> !old(bad) && Varint.Decode(old(Rest())).Some?
      ensures if bad then v == 0 && pos == old(pos)
              else var (value, width) := Varint.Decode(old(Rest())).value;
                   v == value && Rest() == old(Rest())[width..]
    {
      if bad || pos == |data| {
        bad := true;
        return 0;
      }
      var n := Varint.Width(data[pos]);
      if |data| - pos < n {
        bad := true;
        return 0;
      }
      v := data[pos] % 64;
      ghost var taken := [data[pos] % 64] + data[pos..][1..n];
      assert taken[..1][..0] == [];
      for i := 1 to n
        invariant v == Varint.FromBigEndian(taken[..i])
      {
        assert taken[..i + 1][..i] == taken[..i];
        assert taken[i] == data[pos..][1..n][i - 1] == data[pos + i];
        v := v * 256 + data[pos + i];
      }
      assert taken[..n] == taken;
      pos := pos + n;
    }
  }

  class Writer {
    const buf: array<Byte>
    var pos: nat
    var bad: bool

    ghost predicate Valid()
      reads this
    {
      pos <= buf.Length
    }

    ghost function Written(): ByteSeq
      requires Valid()
      reads this, buf
    {
      buf[..pos]
    }

    constructor (b: array<Byte>)
      ensures Valid() && buf == b && Written() == [] && !bad
    {
      buf, pos, bad := b, 0, false;
    }

    /** Whether a write of `n` bytes will be taken. */
    ghost predicate Fits(n: nat)
      requires Valid()
      reads this
    {
      !bad && pos + n <= buf.Length
    }

    method Put8(b: Byte)
      requires Valid()
      modifies this, buf
      ensures Valid() && !bad == old(Fits(1))
      ensures Written() == old(Written()) + if bad then [] else [b]
    {
      if bad || pos == buf.Length {
        bad := true;
        return;
      }
      buf[pos] := b;
      pos := pos + 1;
    }

    method PutBytes(s: ByteSeq)
      requires Valid()
      modifies this, buf
      ensures Valid() && !bad == old(Fits(|s|))
      ensures Written() == old(Written()) + if bad then [] else s
    {
      if bad || buf.Length - pos < |s| {
        bad := true;
        return;
      }
      for i := 0 to |s|
        invariant !bad && pos == old(pos)
        invariant buf[..pos] == old(buf[..pos])
        invariant buf[pos..pos + i] == s[..i]
      {
        buf[pos + i] := s[i];
      }
      pos := pos + |s|;
    }

    method PutVarint(v: nat)
      requires Valid()
      modifies this, buf
      ensures Valid()
      ensures !bad <==> v <= Varint.VARINT_MAX && old(Fits(Varint.Size(v)))
      ensures Written() == old(Written()) + if bad then [] else Varint.Encode(v)
    {
      hide Varint.BigEndian, Shr, Varint.Size;
      var n := Varint.Size(v);
      Varint.SizeZero(v);
      if bad || n == 0 || buf.Length - pos < n {
        bad := true;
        return;
      }
      ghost var image := Varint.BigEndian(v, n);
      for i := 0 to n
        invariant !bad && pos == old(pos)
        invariant buf[..pos] == old(buf[..pos])
        invariant buf[pos..pos + i] == image[..i]
      {
        Varint.ByteIndex(v, n, i);
        buf[pos + i] := Shr(v, (n - 1 - i) * 8) % 256;
      }
      Varint.TopByteFits(v, n);
      buf[pos] := buf[pos] + Varint.Tag(n);
      assert buf[pos..pos + n] == Varint.Encode(v);
      pos := pos + n;
    }
  }
}
