/** The frame codec as it runs, over the bounds-checked cursors. */
module QuicFrameCoder {
  import opened Bytes
  import opened QuicFrame
  import opened QuicRead
  import opened Cursor
  import Varint

  // ----- Decoding

  /** What a decoding method promises: the frame and the rest, or a refusal. */
  ghost predicate Took(d: Option<(Frame, ByteSeq)>, f: Option<Frame>, bad: bool, rest: ByteSeq) {
    if f.Some? then !bad && d == Some((f.value, rest)) else d.None?
  }

  method TakeAck(rd: Reader, t: nat) returns (f: Option<Frame>)
    requires rd.Valid() && !rd.bad
    modifies rd
    ensures rd.Valid() && Took(DecodeAck(t, old(rd.Rest())), f, rd.bad, rd.Rest())
  {
    hide RdV2, RdV3, SkipPairs, RdRanges;
    var largest, delay := TakeV2(rd);
    var count, first := TakeV2(rd);
    if rd.bad || first > largest {
      return None;
    }
    RangesSkip(rd.Rest(), count);
    var pairs := TakePairs(rd, count);
    if rd.bad {
      return None;
    }
    if t == 0x03 {
      var a, b, c := TakeV3(rd);
      if rd.bad {
        return None;
      }
      return Some(Ack(largest, delay, first, Ranges(count, pairs), Some(Ecn(a, b, c))));
    }
    return Some(Ack(largest, delay, first, Ranges(count, pairs), None));
  }

  lemma RangesSkip(s: ByteSeq, count: nat)
    ensures RdRanges(s, count).Some? <==> SkipPairs(s, count).Some?
  {
    hide SkipPairs;
  }

  method TakeOff(rd: Reader, has: bool) returns (off: Option<nat>)
    requires rd.Valid()
    modifies rd
    ensures rd.Valid() && (!rd.bad <==> !old(rd.bad) && RdOff(has, old(rd.Rest())).Some?)
    ensures !rd.bad ==> RdOff(has, old(rd.Rest())) == Some((off, rd.Rest()))
  {
    hide RdV;
    if !has {
      return None;
    }
    var v := TakeV(rd);
    return Some(v);
  }

  method TakeData(rd: Reader, hasLen: bool) returns (data: ByteSeq)
    requires rd.Valid()
    modifies rd
    ensures rd.Valid() && (!rd.bad <==> !old(rd.bad) && RdData(hasLen, old(rd.Rest())).Some?)
    ensures !rd.bad ==> RdData(hasLen, old(rd.Rest())) == Some((data, rd.Rest()))
  {
    hide RdVBytes;
    if hasLen {
      data := TakeVBytes(rd);
    } else {
      ghost var was := rd.Rest();
      data := rd.Take(rd.Left());
      assert was[..|was|] == was;
    }
  }

  method TakeStream(rd: Reader, fin: bool, hasLen: bool, hasOff: bool) returns (f: Option<Frame>)
    requires rd.Valid() && !rd.bad
    modifies rd
    ensures rd.Valid() && Took(DecodeStream(fin, hasLen, hasOff, old(rd.Rest())), f, rd.bad, rd.Rest())
  {
    hide RdV, RdOff, RdData;
    var id := TakeV(rd);
    var off := TakeOff(rd, hasOff);
    if rd.bad {
      return None;
    }
    var data := TakeData(rd, hasLen);
    if rd.bad || !OffsetOk(OffsetOf(off), |data|) {
      return None;
    }
    return Some(Stream(fin, hasLen, id, off, data));
  }

  method TakeNewConnId(rd: Reader) returns (f: Option<Frame>)
    requires rd.Valid() && !rd.bad
    modifies rd
    ensures rd.Valid() && Took(DecodeNewConnId(old(rd.Rest())), f, rd.bad, rd.Rest())
  {
    hide RdV2;
    var sq, prior := TakeV2(rd);
    var n := rd.Get8();
    if rd.bad || n == 0 || n > MAX_CID || prior > sq {
      return None;
    }
    var cid := rd.Take(n);
    var token := rd.Take(RESET_TOKEN_LEN);
    if rd.bad {
      return None;
    }
    return Some(NewConnectionId(sq, prior, cid, token));
  }

  method TakeClose(rd: Reader, t: nat) returns (f: Option<Frame>)
    requires rd.Valid() && !rd.bad
    modifies rd
    ensures rd.Valid() && Took(DecodeClose(t, old(rd.Rest())), f, rd.bad, rd.Rest())
  {
    hide RdV, RdOff, RdVBytes;
    var error := TakeV(rd);
    var ft := TakeOff(rd, t == 0x1c);
    var reason := TakeVBytes(rd);
    if rd.bad {
      return None;
    }
    return Some(ConnectionClose(error, ft, reason));
  }

  method TakeBytesBody(rd: Reader, t: nat) returns (f: Option<Frame>)
    requires rd.Valid() && !rd.bad && BytesBody(t)
    modifies rd
    ensures rd.Valid() && Took(DecodeBytes(t, old(rd.Rest())), f, rd.bad, rd.Rest())
  {
    hide RdV, RdVBytes, RdData;
    if t == 0x06 {
      var offset := TakeV(rd);
      var data := TakeVBytes(rd);
      if rd.bad || !OffsetOk(offset, |data|) {
        return None;
      }
      return Some(Crypto(offset, data));
    }
    if t == 0x07 {
      var token := TakeVBytes(rd);
      if rd.bad || |token| == 0 {
        return None;
      }
      return Some(NewToken(token));
    }
    if t == 0x1a || t == 0x1b {
      var p := rd.Take(PATH_DATA_LEN);
      if rd.bad {
        return None;
      }
      return Some(if t == 0x1a then PathChallenge(p) else PathResponse(p));
    }
    var data := TakeData(rd, t == 0x31);
    if rd.bad {
      return None;
    }
    return Some(Datagram(t == 0x31, data));
  }

  /** A run of padding, the first byte of it already taken, as one frame. */
  method TakePadding(rd: Reader) returns (f: Frame)
    requires rd.Valid() && !rd.bad
    modifies rd
    ensures rd.Valid() && !rd.bad
    ensures DecodeBody(0x00, old(rd.Rest())) == Some((f, rd.Rest()))
  {
    var n := 1;
    ghost var s := rd.Rest();
    while rd.Left() > 0 && rd.data[rd.pos] == 0
      invariant rd.Valid() && !rd.bad && n >= 1 && n - 1 <= |s| && rd.Rest() == s[n - 1..]
      invariant ZeroRun(s) == n - 1 + ZeroRun(rd.Rest())
      decreases |rd.Rest()|
    {
      assert rd.Rest()[0] == 0;
      rd.pos := rd.pos + 1;
      n := n + 1;
    }
    assert rd.Rest() == [] || rd.Rest()[0] != 0;
    return Padding(n);
  }

  method TakeVarintBody(rd: Reader, t: nat) returns (f: Option<Frame>)
    requires rd.Valid() && !rd.bad && (OneVarint(t) || TwoVarints(t) || t == 0x04)
    modifies rd
    ensures rd.Valid() && Took(DecodeBody(t, old(rd.Rest())), f, rd.bad, rd.Rest())
  {
    hide RdV, RdV2, RdV3, DecodeOne, DecodeTwo;
    if t == 0x04 {
      var a, b, c := TakeV3(rd);
      return if rd.bad then None else Some(ResetStream(a, b, c));
    }
    if OneVarint(t) {
      var v := TakeV(rd);
      return if rd.bad then None else DecodeOne(t, v);
    }
    var a, b := TakeV2(rd);
    return if rd.bad then None else DecodeTwo(t, a, b);
  }

  /** The next frame of a packet. */
  method FrameDecode(rd: Reader) returns (f: Option<Frame>)
    requires rd.Valid()
    modifies rd
    ensures rd.Valid()
    ensures if old(rd.bad) then f.None? else Took(Decode(old(rd.Rest())), f, rd.bad, rd.Rest())
  {
    hide RdV, DecodeAck, DecodeStream, DecodeClose, DecodeNewConnId, DecodeBytes, DecodeOne, DecodeTwo, ZeroRun;
    if rd.bad || rd.Left() == 0 {
      NothingDecodes();
      return None;
    }
    var t := TakeV(rd);
    if rd.bad {
      return None;
    }
    if t == 0x00 {
      var p := TakePadding(rd);
      return Some(p);
    } else if t == 0x01 {
      return Some(Ping);
    } else if t == 0x1e {
      return Some(HandshakeDone);
    } else if t == 0x02 || t == 0x03 {
      f := TakeAck(rd, t);
    } else if OneVarint(t) || TwoVarints(t) || t == 0x04 {
      f := TakeVarintBody(rd, t);
    } else if t == 0x18 {
      f := TakeNewConnId(rd);
    } else if t == 0x1c || t == 0x1d {
      f := TakeClose(rd, t);
    } else if BytesBody(t) {
      f := TakeBytesBody(rd, t);
    } else if 0x08 <= t <= 0x0f {
      f := TakeStream(rd, t % 2 == 1, t / 2 % 2 == 1, t / 4 % 2 == 1);
    } else {
      return None;
    }
  }

  lemma NothingDecodes()
    ensures Decode([]).None?
  {
  }

  // ----- Encoding

  method PutV(wr: Writer, v: nat)
    requires wr.Valid()
    modifies wr, wr.buf
    ensures wr.Valid() && (!wr.bad <==> QuicFrame.Fits(v) && old(wr.Fits(|V(v)|)))
    ensures !wr.bad ==> wr.Written() == old(wr.Written()) + V(v)
  {
    hide Varint.Encode;
    wr.PutVarint(v);
  }

  method PutV2(wr: Writer, a: nat, b: nat)
    requires wr.Valid()
    modifies wr, wr.buf
    ensures wr.Valid()
    ensures !wr.bad <==> QuicFrame.Fits(a) && QuicFrame.Fits(b) && old(wr.Fits(|V(a) + V(b)|))
    ensures !wr.bad ==> wr.Written() == old(wr.Written()) + (V(a) + V(b))
  {
    hide V;
    PutV(wr, a);
    PutV(wr, b);
  }

  method PutVBytes(wr: Writer, data: ByteSeq)
    requires wr.Valid()
    modifies wr, wr.buf
    ensures wr.Valid() && (!wr.bad <==> QuicFrame.Fits(|data|) && old(wr.Fits(|VBytes(data)|)))
    ensures !wr.bad ==> wr.Written() == old(wr.Written()) + VBytes(data)
  {
    hide V;
    PutV(wr, |data|);
    wr.PutBytes(data);
  }

  method PutOff(wr: Writer, off: Option<nat>)
    requires wr.Valid()
    modifies wr, wr.buf
    ensures wr.Valid() && (!wr.bad <==> QuicFrame.Fits(OffsetOf(off)) && old(wr.Fits(|OffBytes(off)|)))
    ensures !wr.bad ==> wr.Written() == old(wr.Written()) + OffBytes(off)
  {
    hide V;
    if off.Some? {
      PutV(wr, off.value);
    } else if !wr.bad {
      assert wr.Written() + [] == wr.Written();
    }
  }

  method PutV4(wr: Writer, a: nat, b: nat, c: nat, d: nat)
    requires wr.Valid()
    modifies wr, wr.buf
    ensures wr.Valid()
    ensures !wr.bad <==> && QuicFrame.Fits(a) && QuicFrame.Fits(b) && QuicFrame.Fits(c) && QuicFrame.Fits(d)
                         && old(wr.Fits(|V(a) + V(b) + (V(c) + V(d))|))
    ensures !wr.bad ==> wr.Written() == old(wr.Written()) + (V(a) + V(b) + (V(c) + V(d)))
  {
    hide V, QuicFrame.Fits;
    PutV2(wr, a, b);
    PutV2(wr, c, d);
  }

  method PutEcn(wr: Writer, ecn: Option<Ecn>)
    requires wr.Valid()
    modifies wr, wr.buf
    ensures wr.Valid() && (!wr.bad <==> EcnFits(ecn) && old(wr.Fits(|EcnBytes(ecn)|)))
    ensures !wr.bad ==> wr.Written() == old(wr.Written()) + EcnBytes(ecn)
  {
    hide V, QuicFrame.Fits;
    if ecn.Some? {
      PutV(wr, ecn.value.ect0);
      PutV2(wr, ecn.value.ect1, ecn.value.ce);
    } else if !wr.bad {
      assert wr.Written() + [] == wr.Written();
    }
  }

  predicate EcnFits(ecn: Option<Ecn>) {
    ecn.Some? ==> QuicFrame.Fits(ecn.value.ect0) && QuicFrame.Fits(ecn.value.ect1) && QuicFrame.Fits(ecn.value.ce)
  }

  method PutAck(wr: Writer, f: Frame)
    requires wr.Valid() && f.Ack?
    modifies wr, wr.buf
    ensures wr.Valid() && (!wr.bad <==> Encodable(f) && old(wr.Fits(|BodyBytes(f)|)))
    ensures !wr.bad ==> wr.Written() == old(wr.Written()) + BodyBytes(f)
  {
    hide V, QuicFrame.Fits, EcnBytes, BodyBytes;
    ghost var head := V(f.largest) + V(f.delay) + (V(f.ranges.count) + V(f.firstRange));
    AckBytes(f);
    PutV4(wr, f.largest, f.delay, f.ranges.count, f.firstRange);
    wr.PutBytes(f.ranges.data);
    PutEcn(wr, f.ecn);
    assert BodyBytes(f) == head + f.ranges.data + EcnBytes(f.ecn);
  }

  lemma AckBytes(f: Frame)
    requires f.Ack?
    ensures BodyBytes(f) == V(f.largest) + V(f.delay) + (V(f.ranges.count) + V(f.firstRange)) + f.ranges.data
                            + EcnBytes(f.ecn)
  {
    hide V, EcnBytes;
  }

  method PutData(wr: Writer, hasLen: bool, data: ByteSeq)
    requires wr.Valid()
    modifies wr, wr.buf
    ensures wr.Valid()
    ensures !wr.bad <==> (hasLen ==> QuicFrame.Fits(|data|)) && old(wr.Fits(|DataBytes(hasLen, data)|))
    ensures !wr.bad ==> wr.Written() == old(wr.Written()) + DataBytes(hasLen, data)
  {
    hide V;
    if hasLen {
      PutV(wr, |data|);
    }
    wr.PutBytes(data);
  }

  method PutStream(wr: Writer, f: Frame)
    requires wr.Valid() && f.Stream?
    modifies wr, wr.buf
    ensures wr.Valid() && (!wr.bad <==> Encodable(f) && old(wr.Fits(|BodyBytes(f)|)))
    ensures !wr.bad ==> wr.Written() == old(wr.Written()) + BodyBytes(f)
  {
    hide V, DataBytes, OffBytes;
    PutV(wr, f.id);
    PutOff(wr, f.off);
    PutData(wr, f.hasLen, f.data);
  }

  method PutNewConnId(wr: Writer, f: Frame)
    requires wr.Valid() && f.NewConnectionId? && 0 < |f.cid| <= MAX_CID
    modifies wr, wr.buf
    ensures wr.Valid() && (!wr.bad <==> Encodable(f) && old(wr.Fits(|BodyBytes(f)|)))
    ensures !wr.bad ==> wr.Written() == old(wr.Written()) + BodyBytes(f)
  {
    hide V;
    PutV2(wr, f.seq_, f.retirePrior);
    wr.Put8(|f.cid|);
    wr.PutBytes(f.cid);
    wr.PutBytes(f.token);
  }

  method PutClose(wr: Writer, f: Frame)
    requires wr.Valid() && f.ConnectionClose?
    modifies wr, wr.buf
    ensures wr.Valid() && (!wr.bad <==> Encodable(f) && old(wr.Fits(|BodyBytes(f)|)))
    ensures !wr.bad ==> wr.Written() == old(wr.Written()) + BodyBytes(f)
  {
    hide V, VBytes;
    PutV(wr, f.error);
    PutOff(wr, f.frameType);
    PutVBytes(wr, f.reason);
  }

  method PutVarintBody(wr: Writer, f: Frame)
    requires wr.Valid() && PlainVarints(f)
    modifies wr, wr.buf
    ensures wr.Valid() && (!wr.bad <==> Encodable(f) && old(wr.Fits(|BodyBytes(f)|)))
    ensures !wr.bad ==> wr.Written() == old(wr.Written()) + BodyBytes(f)
  {
    hide V;
    match f
    case ResetStream(a, b, c) =>
      PutV(wr, a);
      PutV2(wr, b, c);
    case StopSending(a, b) => PutV2(wr, a, b);
    case MaxStreamData(a, b) => PutV2(wr, a, b);
    case StreamDataBlocked(a, b) => PutV2(wr, a, b);
    case MaxData(v) => PutV(wr, v);
    case MaxStreams(_, v) => PutV(wr, v);
    case DataBlocked(v) => PutV(wr, v);
    case StreamsBlocked(_, v) => PutV(wr, v);
    case RetireConnectionId(v) => PutV(wr, v);
  }

  method PutBytesBody(wr: Writer, f: Frame)
    requires wr.Valid() && BytesBody(TypeOf(f)) && (f.Datagram? ==> f.hasLen)
    modifies wr, wr.buf
    ensures wr.Valid() && (!wr.bad <==> Encodable(f) && old(wr.Fits(|BodyBytes(f)|)))
    ensures !wr.bad ==> wr.Written() == old(wr.Written()) + BodyBytes(f)
  {
    hide V, VBytes;
    match f
    case Crypto(offset, data) =>
      PutV(wr, offset);
      PutVBytes(wr, data);
    case NewToken(token) => PutVBytes(wr, token);
    case PathChallenge(p) => wr.PutBytes(p);
    case PathResponse(p) => wr.PutBytes(p);
    case Datagram(_, data) => PutVBytes(wr, data);
  }

  /** Everything after the type. */
  method PutBody(wr: Writer, f: Frame)
    requires wr.Valid() && !f.Padding? && (f.Datagram? ==> f.hasLen)
    requires f.NewConnectionId? ==> 0 < |f.cid| <= MAX_CID
    modifies wr, wr.buf
    ensures wr.Valid() && (!wr.bad <==> Encodable(f) && old(wr.Fits(|BodyBytes(f)|)))
    ensures !wr.bad ==> wr.Written() == old(wr.Written()) + BodyBytes(f)
  {
    hide V, VBytes;
    if f.Ack? {
      PutAck(wr, f);
    } else if f.Stream? {
      PutStream(wr, f);
    } else if f.NewConnectionId? {
      PutNewConnId(wr, f);
    } else if f.ConnectionClose? {
      PutClose(wr, f);
    } else if BytesBody(TypeOf(f)) {
      PutBytesBody(wr, f);
    } else if PlainVarints(f) {
      PutVarintBody(wr, f);
    } else if !wr.bad {
      assert wr.Written() + [] == wr.Written();
    }
  }

  /** Writes a frame whole, or answers no. */
  method FrameEncode(wr: Writer, f: Frame) returns (ok: bool)
    requires wr.Valid()
    modifies wr, wr.buf
    ensures wr.Valid()
    ensures ok <==> Encode(f).Some? && old(wr.Fits(|Encode(f).value|))
    ensures ok ==> wr.Written() == old(wr.Written()) + Encode(f).value
  {
    hide V, BodyBytes;
    if f.Padding? {
      PadEncodes(f.run);
      wr.PutBytes(Zeros(f.run));
      return !wr.bad;
    }
    if f.Datagram? && !f.hasLen {
      return false;
    }
    if f.NewConnectionId? && !(0 < |f.cid| <= MAX_CID) {
      return false;
    }
    PutV(wr, TypeOf(f));
    PutBody(wr, f);
    return !wr.bad;
  }

  lemma PadEncodes(n: nat)
    ensures Encode(Padding(n)) == Some(Zeros(n))
  {
  }
}
