/** QUIC frames by the table: what section 19 of RFC 9000 and section 4 of RFC 9221 say each type of
    frame is made of, read by one loop over the parts, and the proof that the decoder, which has a branch
    for each, accepts and reports exactly that. */
module QuicLayout {
  import opened Bytes
  import opened QuicFrame

  /** A part of a frame: a varint; bytes of fixed length, behind a varint length, behind a length of
      one byte, or up to the end of the packet; or as many pairs of varints as the third part says. */
  datatype Part = Num | Fixed(n: nat) | Counted | Short | Rest | Pairs

  datatype Val = N(n: nat) | B(b: ByteSeq)

  function Layout(t: nat): Option<seq<Part>> {
    if t == 0x01 || t == 0x1e then Some([])
    else if t == 0x02 then Some([Num, Num, Num, Num, Pairs])
    else if t == 0x03 then Some([Num, Num, Num, Num, Pairs, Num, Num, Num])
    else if t == 0x04 then Some([Num, Num, Num])
    else if t in {0x05, 0x11, 0x15} then Some([Num, Num])
    else if t == 0x06 || t == 0x1d then Some([Num, Counted])
    else if t == 0x07 || t == 0x31 then Some([Counted])
    else if t == 0x08 || t == 0x09 then Some([Num, Rest])
    else if t == 0x0a || t == 0x0b then Some([Num, Counted])
    else if t == 0x0c || t == 0x0d then Some([Num, Num, Rest])
    else if t == 0x0e || t == 0x0f || t == 0x1c then Some([Num, Num, Counted])
    else if t in {0x10, 0x12, 0x13, 0x14, 0x16, 0x17, 0x19} then Some([Num])
    else if t == 0x18 then Some([Num, Num, Short, Fixed(16)])
    else if t == 0x1a || t == 0x1b then Some([Fixed(8)])
    else if t == 0x30 then Some([Rest])
    else None
  }

  /** One part off the front; the pairs are counted by the third value before them. */
  function ReadPart(p: Part, got: seq<Val>, s: ByteSeq): Option<(Val, ByteSeq)> {
    match p
    case Num => (match RdV(s) case None => None case Some((v, s1)) => Some((N(v), s1)))
    case Fixed(n) => if n <= |s| then Some((B(s[..n]), s[n..])) else None
    case Counted =>
      (match RdV(s)
       case None => None
       case Some((n, s1)) => if n <= |s1| then Some((B(s1[..n]), s1[n..])) else None)
    case Short => if s == [] || s[0] > |s| - 1 then None else Some((B(s[1..][..s[0]]), s[1..][s[0]..]))
    case Rest => Some((B(s), []))
    case Pairs =>
      if |got| < 3 || got[2].B? then None
      else
        match SkipPairs(s, got[2].n)
        case None => None
        case Some(s1) => Some((B(s[..|s| - |s1|]), s1))
  }

  /** All the parts, one after another. */
  function Read(ps: seq<Part>, got: seq<Val>, s: ByteSeq): Option<(seq<Val>, ByteSeq)> {
    if ps == [] then Some((got, s))
    else
      match ReadPart(ps[0], got, s)
      case None => None
      case Some((v, s1)) => Read(ps[1..], got + [v], s1)
  }

  /** The numbers, and the bytes, of a frame in the order they travel. */
  function Fields(f: Frame): seq<Val> {
    match f
    case Padding(_) => []
    case Ping => []
    case HandshakeDone => []
    case Ack(_, _, _, _, _) =>
      [N(f.largest), N(f.delay), N(f.ranges.count), N(f.firstRange), B(f.ranges.data)]
      + (if f.ecn.Some? then [N(f.ecn.value.ect0), N(f.ecn.value.ect1), N(f.ecn.value.ce)] else [])
    case ResetStream(_, _, _) => [N(f.id), N(f.error), N(f.finalSize)]
    case StopSending(_, _) => [N(f.id), N(f.error)]
    case Crypto(_, _) => [N(f.offset), B(f.data)]
    case NewToken(_) => [B(f.token)]
    case Stream(_, _, _, _, _) =>
      if f.off.Some? then [N(f.id), N(f.off.value), B(f.data)] else [N(f.id), B(f.data)]
    case MaxData(_) => [N(f.max)]
    case MaxStreamData(_, _) => [N(f.id), N(f.max)]
    case MaxStreams(_, _) => [N(f.max)]
    case DataBlocked(_) => [N(f.limit)]
    case StreamDataBlocked(_, _) => [N(f.id), N(f.limit)]
    case StreamsBlocked(_, _) => [N(f.limit)]
    case NewConnectionId(_, _, _, _) => [N(f.seq_), N(f.retirePrior), B(f.cid), B(f.token)]
    case RetireConnectionId(_) => [N(f.seq_)]
    case PathChallenge(_) => [B(f.path)]
    case PathResponse(_) => [B(f.path)]
    case ConnectionClose(_, _, _) =>
      if f.frameType.Some? then [N(f.error), N(f.frameType.value), B(f.reason)] else [N(f.error), B(f.reason)]
    case Datagram(_, _) => [B(f.data)]
  }

  /** Which frame each type names. */
  predicate Names(t: nat, f: Frame) {
    match f
    case Padding(_) => t == 0x00
    case Ping => t == 0x01
    case Ack(_, _, _, _, ecn) => t == if ecn.None? then 0x02 else 0x03
    case ResetStream(_, _, _) => t == 0x04
    case StopSending(_, _) => t == 0x05
    case Crypto(_, _) => t == 0x06
    case NewToken(_) => t == 0x07
    case Stream(fin, hasLen, _, off, _) =>
      && 0x08 <= t <= 0x0f && (fin <==> t in {0x09, 0x0b, 0x0d, 0x0f})
      && (hasLen <==> t in {0x0a, 0x0b, 0x0e, 0x0f}) && (off.Some? <==> 0x0c <= t)
    case MaxData(_) => t == 0x10
    case MaxStreamData(_, _) => t == 0x11
    case MaxStreams(uni, _) => t == if uni then 0x13 else 0x12
    case DataBlocked(_) => t == 0x14
    case StreamDataBlocked(_, _) => t == 0x15
    case StreamsBlocked(uni, _) => t == if uni then 0x17 else 0x16
    case NewConnectionId(_, _, _, _) => t == 0x18
    case RetireConnectionId(_) => t == 0x19
    case PathChallenge(_) => t == 0x1a
    case PathResponse(_) => t == 0x1b
    case ConnectionClose(_, ft, _) => t == if ft.Some? then 0x1c else 0x1d
    case HandshakeDone => t == 0x1e
    case Datagram(hasLen, _) => t == if hasLen then 0x31 else 0x30
  }

  /** Where the bytes of a frame that has an offset before them end. */
  function Reach(vs: seq<Val>): nat {
    if |vs| == 2 && vs[0].N? && vs[1].B? then vs[0].n + |vs[1].b|
    else if |vs| == 3 && vs[1].N? && vs[2].B? then vs[1].n + |vs[2].b|
    else 0
  }

  /** What a frame of each type must keep to beyond its parts: stream counts up to 2^60, data that ends
      by 2^62, a token that is there, connection IDs of 1 to 20 bytes, and what is acknowledged or
      retired not above what there is. */
  predicate Keeps(t: nat, vs: seq<Val>) {
    if t == 0x02 || t == 0x03 then |vs| >= 4 && vs[0].N? && vs[3].N? && vs[3].n <= vs[0].n
    else if t == 0x06 || 0x0c <= t <= 0x0f then Reach(vs) <= 4611686018427387904
    else if 0x08 <= t <= 0x0b then |vs| == 2 && vs[1].B? && |vs[1].b| <= 4611686018427387904
    else if t == 0x07 then |vs| == 1 && vs[0].B? && vs[0].b != []
    else if t in {0x12, 0x13, 0x16, 0x17} then |vs| == 1 && vs[0].N? && vs[0].n <= 1152921504606846976
    else if t == 0x18 then
      |vs| == 4 && vs[0].N? && vs[1].N? && vs[2].B? && vs[1].n <= vs[0].n && 1 <= |vs[2].b| <= 20
    else true
  }

  /** The body of a frame, by the table. */
  predicate Takes(t: nat, s: ByteSeq) {
    Layout(t).Some? && Read(Layout(t).value, [], s).Some? && Keeps(t, Read(Layout(t).value, [], s).value.0)
  }

  /** What was decoded is what the table says is there. */
  predicate Agrees(t: nat, s: ByteSeq, r: Option<(Frame, ByteSeq)>) {
    && (r.Some? <==> Takes(t, s))
    && (r.Some? ==> Names(t, r.value.0) && Read(Layout(t).value, [], s) == Some((Fields(r.value.0), r.value.1)))
  }

  // ----- One part at a time

  lemma ReadNum(ps: seq<Part>, got: seq<Val>, s: ByteSeq)
    ensures Read([Num] + ps, got, s)
            == if RdV(s).None? then None else Read(ps, got + [N(RdV(s).value.0)], RdV(s).value.1)
  {
    hide RdV;
    assert ([Num] + ps)[1..] == ps;
  }

  lemma ReadNum2(ps: seq<Part>, got: seq<Val>, s: ByteSeq)
    ensures Read([Num, Num] + ps, got, s)
            == if RdV2(s).None? then None
               else Read(ps, got + [N(RdV2(s).value.0), N(RdV2(s).value.1)], RdV2(s).value.2)
  {
    hide RdV, Read;
    assert [Num, Num] + ps == [Num] + ([Num] + ps);
    ReadNum([Num] + ps, got, s);
    if RdV(s).Some? {
      var (a, s1) := RdV(s).value;
      ReadNum(ps, got + [N(a)], s1);
      if RdV(s1).Some? {
        assert got + [N(a)] + [N(RdV(s1).value.0)] == got + [N(a), N(RdV(s1).value.0)];
      }
    }
  }

  lemma ReadLast(p: Part, got: seq<Val>, s: ByteSeq)
    ensures Read([p], got, s)
            == if ReadPart(p, got, s).None? then None
               else Some((got + [ReadPart(p, got, s).value.0], ReadPart(p, got, s).value.1))
  {
    hide ReadPart;
    assert [p][1..] == [];
  }

  lemma ReadLasts(ps: seq<Part>, got: seq<Val>, s: ByteSeq)
    ensures ps == [] ==> Read(ps, got, s) == Some((got, s))
  {
  }

  // ----- The frames, by their shape

  lemma OneAgrees(t: nat, s: ByteSeq)
    requires OneVarint(t)
    ensures Agrees(t, s, DecodeBody(t, s))
  {
    hide RdV, Read, SkipPairs, DecodeAck, ZeroRun, DecodeStream, DecodeNewConnId, DecodeClose, DecodeBytes;
    ReadLast(Num, [], s);
    var r := RdV(s);
    if r.Some? {
      assert [] + [N(r.value.0)] == [N(r.value.0)];
    }
  }

  lemma TwoAgrees(t: nat, s: ByteSeq)
    requires TwoVarints(t)
    ensures Agrees(t, s, DecodeBody(t, s))
  {
    hide RdV2, Read;
    assert [Num, Num] + [] == [Num, Num];
    ReadNum2([], [], s);
    var r := RdV2(s);
    if r.Some? {
      var vs := [N(r.value.0), N(r.value.1)];
      assert [] + vs == vs;
      ReadLasts([], vs, r.value.2);
    }
  }

  lemma ResetAgrees(s: ByteSeq)
    ensures Agrees(0x04, s, DecodeBody(0x04, s))
  {
    hide RdV, RdV2, Read;
    assert [Num] + [Num, Num] == [Num, Num, Num];
    assert [Num, Num] + [] == [Num, Num];
    ReadNum([Num, Num], [], s);
    var r := RdV(s);
    if r.Some? {
      var (a, s1) := r.value;
      assert [] + [N(a)] == [N(a)];
      ReadNum2([], [N(a)], s1);
      if RdV2(s1).Some? {
        var (b, c, s2) := RdV2(s1).value;
        assert [N(a)] + [N(b), N(c)] == [N(a), N(b), N(c)];
        ReadLasts([], [N(a), N(b), N(c)], s2);
      }
    }
  }

  lemma NoneAgrees(t: nat, s: ByteSeq)
    requires t == 0x01 || t == 0x1e
    ensures Agrees(t, s, DecodeBody(t, s))
  {
  }

  lemma BytesAgree(t: nat, s: ByteSeq)
    requires BytesBody(t) && t != 0x06
    ensures Agrees(t, s, DecodeBody(t, s))
  {
    hide RdV, Read, SkipPairs, DecodeAck, ZeroRun, DecodeStream, DecodeNewConnId, DecodeClose, DecodeOne;
    var p := Layout(t).value[0];
    assert Layout(t).value == [p];
    ReadLast(p, [], s);
    var r := ReadPart(p, [], s);
    if r.Some? {
      assert [] + [r.value.0] == [r.value.0];
    }
  }

  lemma CryptoAgrees(s: ByteSeq)
    ensures Agrees(0x06, s, DecodeBody(0x06, s))
  {
    hide RdV, Read;
    NumThen(Counted, s);
  }

  /** A varint and one part more. */
  lemma NumThen(p: Part, s: ByteSeq)
    ensures Read([Num, p], [], s)
            == if RdV(s).None? then None
               else
                 var (a, s1) := RdV(s).value;
                 var r := ReadPart(p, [N(a)], s1);
                 if r.None? then None else Some(([N(a), r.value.0], r.value.1))
  {
    hide RdV, Read, ReadPart;
    assert [Num] + [p] == [Num, p];
    ReadNum([p], [], s);
    if RdV(s).Some? {
      var (a, s1) := RdV(s).value;
      assert [] + [N(a)] == [N(a)];
      ReadLast(p, [N(a)], s1);
      if ReadPart(p, [N(a)], s1).Some? {
        var v := ReadPart(p, [N(a)], s1).value.0;
        assert [N(a)] + [v] == [N(a), v];
      }
    }
  }

  /** Two varints and one part more. */
  lemma TwoThen(p: Part, s: ByteSeq)
    ensures Read([Num, Num, p], [], s)
            == if RdV2(s).None? then None
               else
                 var (a, b, s1) := RdV2(s).value;
                 var r := ReadPart(p, [N(a), N(b)], s1);
                 if r.None? then None else Some(([N(a), N(b), r.value.0], r.value.1))
  {
    hide RdV2, Read, ReadPart;
    assert [Num, Num] + [p] == [Num, Num, p];
    ReadNum2([p], [], s);
    if RdV2(s).Some? {
      var (a, b, s1) := RdV2(s).value;
      assert [] + [N(a), N(b)] == [N(a), N(b)];
      ReadLast(p, [N(a), N(b)], s1);
      if ReadPart(p, [N(a), N(b)], s1).Some? {
        var v := ReadPart(p, [N(a), N(b)], s1).value.0;
        assert [N(a), N(b)] + [v] == [N(a), N(b), v];
      }
    }
  }

  lemma StreamAgrees(t: nat, s: ByteSeq)
    requires 0x08 <= t <= 0x0f
    ensures Agrees(t, s, DecodeBody(t, s))
  {
    hide RdV, Read, SkipPairs, DecodeAck, ZeroRun, DecodeNewConnId, DecodeClose, DecodeBytes, DecodeOne;
    var p := if t in {0x0a, 0x0b, 0x0e, 0x0f} then Counted else Rest;
    if t < 0x0c {
      NumThen(p, s);
    } else {
      TwoThen(p, s);
    }
  }

  lemma CloseAgrees(t: nat, s: ByteSeq)
    requires t == 0x1c || t == 0x1d
    ensures Agrees(t, s, DecodeBody(t, s))
  {
    hide RdV, Read, SkipPairs, DecodeAck, ZeroRun, DecodeStream, DecodeNewConnId, DecodeBytes, DecodeOne;
    if t == 0x1d {
      NumThen(Counted, s);
    } else {
      TwoThen(Counted, s);
    }
  }

  lemma ConnIdAgrees(s: ByteSeq)
    ensures Agrees(0x18, s, DecodeBody(0x18, s))
  {
    hide RdV2, Read, SkipPairs, DecodeAck, ZeroRun, DecodeStream, DecodeClose, DecodeBytes, DecodeOne;
    var token: seq<Part> := [Fixed(16)];
    assert [Num, Num] + ([Short] + token) == [Num, Num, Short, Fixed(16)];
    ReadNum2([Short] + token, [], s);
    if RdV2(s).Some? {
      var (a, b, s1) := RdV2(s).value;
      assert [] + [N(a), N(b)] == [N(a), N(b)];
      ReadMore(Short, token, [N(a), N(b)], s1);
      var r := ReadPart(Short, [N(a), N(b)], s1);
      if r.Some? {
        var (v, s2) := r.value;
        assert [N(a), N(b)] + [v] == [N(a), N(b), v];
        ReadLast(Fixed(16), [N(a), N(b), v], s2);
        if 16 <= |s2| {
          assert [N(a), N(b), v] + [B(s2[..16])] == [N(a), N(b), v, B(s2[..16])];
        }
      }
    }
  }

  lemma ReadMore(p: Part, ps: seq<Part>, got: seq<Val>, s: ByteSeq)
    ensures Read([p] + ps, got, s)
            == if ReadPart(p, got, s).None? then None
               else Read(ps, got + [ReadPart(p, got, s).value.0], ReadPart(p, got, s).value.1)
  {
    hide ReadPart;
    assert ([p] + ps)[1..] == ps;
  }

  /** The five parts every ACK has, and those after them. */
  lemma AckReads(ps: seq<Part>, s: ByteSeq)
    ensures Read([Num, Num, Num, Num, Pairs] + ps, [], s)
            == if RdV2(s).None? then None
               else
                 var (a, b, s1) := RdV2(s).value;
                 if RdV2(s1).None? then None
                 else
                   var (c, d, s2) := RdV2(s1).value;
                   var r := RdRanges(s2, c);
                   if r.None? then None
                   else Read(ps, [N(a), N(b), N(c), N(d), B(r.value.0.data)], r.value.1)
  {
    hide RdV2, Read, SkipPairs;
    var more := [Pairs] + ps;
    assert [Num, Num, Num, Num, Pairs] + ps == [Num, Num] + ([Num, Num] + more);
    ReadNum2([Num, Num] + more, [], s);
    if RdV2(s).Some? {
      var (a, b, s1) := RdV2(s).value;
      var two := [N(a), N(b)];
      assert [] + two == two;
      ReadNum2(more, two, s1);
      if RdV2(s1).Some? {
        var (c, d, s2) := RdV2(s1).value;
        var four := [N(a), N(b), N(c), N(d)];
        assert two + [N(c), N(d)] == four;
        ReadMore(Pairs, ps, four, s2);
        if SkipPairs(s2, c).Some? {
          var v := ReadPart(Pairs, four, s2).value.0;
          assert four + [v] == [N(a), N(b), N(c), N(d), v];
        }
      }
    }
  }

  lemma EcnReads(got: seq<Val>, s: ByteSeq)
    ensures Read([Num, Num, Num], got, s)
            == if RdV3(s).None? then None
               else Some((got + [N(RdV3(s).value.0), N(RdV3(s).value.1), N(RdV3(s).value.2)], RdV3(s).value.3))
  {
    hide RdV, RdV2, Read;
    assert [Num] + [Num, Num] == [Num, Num, Num];
    assert [Num, Num] + [] == [Num, Num];
    ReadNum([Num, Num], got, s);
    if RdV(s).Some? {
      var (a, s1) := RdV(s).value;
      ReadNum2([], got + [N(a)], s1);
      if RdV2(s1).Some? {
        var (b, c, s2) := RdV2(s1).value;
        assert got + [N(a)] + [N(b), N(c)] == got + [N(a), N(b), N(c)];
        ReadLasts([], got + [N(a), N(b), N(c)], s2);
      }
    }
  }

  lemma AckAgrees(t: nat, s: ByteSeq)
    requires t == 0x02 || t == 0x03
    ensures Agrees(t, s, DecodeBody(t, s))
  {
    hide RdV2, RdV3, Read, RdRanges;
    var tail: seq<Part> := if t == 0x02 then [] else [Num, Num, Num];
    assert [Num, Num, Num, Num, Pairs] + tail == Layout(t).value;
    AckReads(tail, s);
    if RdV2(s).Some? {
      var (a, b, s1) := RdV2(s).value;
      if RdV2(s1).Some? {
        var (c, d, s2) := RdV2(s1).value;
        RangesCount(s2, c);
        var r := RdRanges(s2, c);
        if r.Some? {
          var got := [N(a), N(b), N(c), N(d), B(r.value.0.data)];
          ReadLasts(tail, got, r.value.1);
          EcnReads(got, r.value.1);
          assert got + [] == got;
        }
      }
    }
  }

  lemma RangesCount(s: ByteSeq, n: nat)
    ensures RdRanges(s, n).Some? ==> RdRanges(s, n).value.0.count == n
  {
    hide SkipPairs;
  }

  /** Any bytes at all, of any type. */
  lemma BodyAgrees(t: nat, s: ByteSeq)
    requires t != 0x00
    ensures Agrees(t, s, DecodeBody(t, s))
  {
    if OneVarint(t) {
      OneAgrees(t, s);
    } else if TwoVarints(t) {
      TwoAgrees(t, s);
    } else if t == 0x04 {
      ResetAgrees(s);
    } else if t == 0x06 {
      CryptoAgrees(s);
    } else if BytesBody(t) {
      BytesAgree(t, s);
    } else if 0x08 <= t <= 0x0f {
      StreamAgrees(t, s);
    } else if t == 0x18 {
      ConnIdAgrees(s);
    } else if t == 0x1c || t == 0x1d {
      CloseAgrees(t, s);
    } else if t == 0x02 || t == 0x03 {
      AckAgrees(t, s);
    } else if t == 0x01 || t == 0x1e {
      NoneAgrees(t, s);
    } else {
      assert Layout(t).None?;
    }
  }

  /** Any bytes at all: a packet's next frame is read if and only if it begins with a type, in any form
      of a varint, that is PADDING or is in the table, and goes on with that type's parts within their
      bounds. The frame read is of that type and has those parts, in their order; what is left is what
      comes after them. A run of PADDING is one frame. */
  lemma FrameExactly(s: ByteSeq)
    ensures Decode(s).Some? <==> RdV(s).Some? && (RdV(s).value.0 == 0 || Takes(RdV(s).value.0, RdV(s).value.1))
    ensures Decode(s).Some? ==>
              var (f, rest) := Decode(s).value;
              var (t, body) := RdV(s).value;
              && Names(t, f)
              && (t != 0 ==> Read(Layout(t).value, [], body) == Some((Fields(f), rest)))
              && (t == 0 ==> f.run > 0 && body == Zeros(f.run - 1) + rest && (rest == [] || rest[0] != 0))
  {
    hide RdV, Read, DecodeBody, Names, Keeps, Fields;
    if RdV(s).Some? {
      var (t, body) := RdV(s).value;
      if t == 0 {
        PaddingAgrees(body);
      } else {
        BodyAgrees(t, body);
      }
    }
  }

  lemma PaddingAgrees(s: ByteSeq)
    ensures var r := DecodeBody(0, s);
            && r.Some? && r.value.0.Padding? && Names(0, r.value.0) && r.value.0.run > 0
            && s == Zeros(r.value.0.run - 1) + r.value.1 && (r.value.1 == [] || r.value.1[0] != 0)
  {
    var n := ZeroRun(s);
    assert s == s[..n] + s[n..];
    assert s[..n] == Zeros(n);
  }
}
