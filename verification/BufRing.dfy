/** The byte queue that a connection's input arrives in. */
module BufRing {
  import opened Bytes
  import Varint

  /** The bytes read off a stream and not yet consumed. */
  class Ring {
    var data: ByteSeq

    constructor (s: ByteSeq)
      ensures data == s
    {
      data := s;
    }

    method Skip(n: nat)
      requires n <= |data|
      modifies this
      ensures data == old(data)[n..]
    {
      data := data[n..];
    }

    method Read(n: nat) returns (s: ByteSeq)
      requires n <= |data|
      modifies this
      ensures s == old(data)[..n] && data == old(data)[n..]
    {
      s := data[..n];
      data := data[n..];
    }

    /** The varint `off` bytes in, without consuming it, and its width; zero if it is not all there. */
    method PeekVarint(off: nat) returns (n: nat, v: nat)
      requires off <= |data|
      ensures n == 0 <==> Varint.Decode(data[off..]).None?
      ensures n != 0 ==> Varint.Decode(data[off..]) == Some((v, n))
    {
      if off == |data| {
        return 0, 0;
      }
      n := Varint.Width(data[off]);
      if |data| - off < n {
        return 0, 0;
      }
      v := data[off] % 64;
      ghost var taken := [data[off] % 64] + data[off..][1..n];
      assert taken[..1][..0] == [];
      for i := 1 to n
        invariant v == Varint.FromBigEndian(taken[..i])
      {
        assert taken[..i + 1][..i] == taken[..i];
        assert taken[i] == data[off..][1..n][i - 1] == data[off + i];
        v := v * 256 + data[off + i];
      }
      assert taken[..n] == taken;
    }
  }
}
