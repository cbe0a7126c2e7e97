/** Reading the parts of a frame off a cursor. Each method takes what the function of the same shape
    finds at the front of what is left, or sets the cursor's flag. */
module QuicRead {
  import opened Bytes
  import opened QuicFrame
  import opened Cursor
  import Varint

  method TakeV(rd: Reader) returns (v: nat)
    requires rd.Valid()
    modifies rd
    ensures rd.Valid() && (!rd.bad <==> !old(rd.bad) && RdV(old(rd.Rest())).Some?)
    ensures !rd.bad ==> RdV(old(rd.Rest())) == Some((v, rd.Rest()))
  {
    hide Varint.Decode;
    v := rd.GetVarint();
  }

  method TakeV2(rd: Reader) returns (a: nat, b: nat)
    requires rd.Valid()
    modifies rd
    ensures rd.Valid() && (!rd.bad <==> !old(rd.bad) && RdV2(old(rd.Rest())).Some?)
    ensures !rd.bad ==> RdV2(old(rd.Rest())) == Some((a, b, rd.Rest()))
  {
    hide RdV;
    a := TakeV(rd);
    b := TakeV(rd);
  }

  method TakeV3(rd: Reader) returns (a: nat, b: nat, c: nat)
    requires rd.Valid()
    modifies rd
    ensures rd.Valid() && (!rd.bad <==> !old(rd.bad) && RdV3(old(rd.Rest())).Some?)
    ensures !rd.bad ==> RdV3(old(rd.Rest())) == Some((a, b, c, rd.Rest()))
  {
    hide RdV, RdV2;
    a := TakeV(rd);
    b, c := TakeV2(rd);
  }

  method TakeVBytes(rd: Reader) returns (s: ByteSeq)
    requires rd.Valid()
    modifies rd
    ensures rd.Valid() && (!rd.bad <==> !old(rd.bad) && RdVBytes(old(rd.Rest())).Some?)
    ensures !rd.bad ==> RdVBytes(old(rd.Rest())) == Some((s, rd.Rest()))
  {
    hide RdV;
    var n := TakeV(rd);
    if rd.bad || n > rd.Left() {
      rd.bad := true;
      return [];
    }
    s := rd.Take(n);
  }

  /** Passes over `n` pairs of varints, and hands back the bytes they took. */
  method TakePairs(rd: Reader, n: nat) returns (s: ByteSeq)
    requires rd.Valid() && !rd.bad
    modifies rd
    ensures rd.Valid() && (!rd.bad <==> SkipPairs(old(rd.Rest()), n).Some?)
    ensures !rd.bad ==> RdRanges(old(rd.Rest()), n) == Some((Ranges(n, s), rd.Rest()))
  {
    hide RdV2;
    var start := rd.pos;
    for i := 0 to n
      invariant rd.Valid() && !rd.bad && start <= rd.pos
      invariant SkipPairs(old(rd.Rest()), n) == SkipPairs(rd.Rest(), n - i)
    {
      ghost var rest := rd.Rest();
      var _, _ := TakeV2(rd);
      if rd.bad {
        return [];
      }
    }
    s := rd.data[start..rd.pos];
    assert old(rd.Rest())[..rd.pos - start] == s;
  }
}
