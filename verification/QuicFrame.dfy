/** QUIC frames on the wire (section 19 of RFC 9000). */
module QuicFrame {
  import opened Bytes
  import Varint

  const MAX_CID := 20
  const RESET_TOKEN_LEN := 16
  const PATH_DATA_LEN := 8
  const MAX_OFFSET: nat := Varint.VARINT_MAX + 1
  const MAX_STREAMS: nat := 0x1000_0000_0000_0000

  /** The gap and length pairs of an ACK, kept as they came and walked later. */
  datatype Ranges = Ranges(count: nat, data: ByteSeq)

  datatype Ecn = Ecn(ect0: nat, ect1: nat, ce: nat)

  datatype Frame =
    | Padding(run: nat)
    | Ping
    | Ack(largest: nat, delay: nat, firstRange: nat, ranges: Ranges, ecn: Option<Ecn>)
    | ResetStream(id: nat, error: nat, finalSize: nat)
    | StopSending(id: nat, error: nat)
    | Crypto(offset: nat, data: ByteSeq)
    | NewToken(token: ByteSeq)
    | Stream(fin: bool, hasLen: bool, id: nat, off: Option<nat>, data: ByteSeq)
    | MaxData(max: nat)
    | MaxStreamData(id: nat, max: nat)
    | MaxStreams(uni: bool, max: nat)
    | DataBlocked(limit: nat)
    | StreamDataBlocked(id: nat, limit: nat)
    | StreamsBlocked(uni: bool, limit: nat)
    | NewConnectionId(seq_: nat, retirePrior: nat, cid: ByteSeq, token: ByteSeq)
    | RetireConnectionId(seq_: nat)
    | PathChallenge(path: ByteSeq)
    | PathResponse(path: ByteSeq)
    | ConnectionClose(error: nat, frameType: Option<nat>, reason: ByteSeq)
    | HandshakeDone
    | Datagram(hasLen: bool, data: ByteSeq)

  function Bit(b: bool, v: nat): nat { if b then v else 0 }

  /** The type that goes on the wire, low-order bits included. */
  function TypeOf(f: Frame): (t: nat)
    ensures t < 0x40 && (t == 0 <==> f.Padding?)
  {
    match f
    case Padding(_) => 0x00
    case Ping => 0x01
    case Ack(_, _, _, _, ecn) => if ecn.Some? then 0x03 else 0x02
    case ResetStream(_, _, _) => 0x04
    case StopSending(_, _) => 0x05
    case Crypto(_, _) => 0x06
    case NewToken(_) => 0x07
    case Stream(fin, hasLen, _, off, _) => 0x08 + Bit(fin, 1) + Bit(hasLen, 2) + Bit(off.Some?, 4)
    case MaxData(_) => 0x10
    case MaxStreamData(_, _) => 0x11
    case MaxStreams(uni, _) => 0x12 + Bit(uni, 1)
    case DataBlocked(_) => 0x14
    case StreamDataBlocked(_, _) => 0x15
    case StreamsBlocked(uni, _) => 0x16 + Bit(uni, 1)
    case NewConnectionId(_, _, _, _) => 0x18
    case RetireConnectionId(_) => 0x19
    case PathChallenge(_) => 0x1a
    case PathResponse(_) => 0x1b
    case ConnectionClose(_, ft, _) => if ft.Some? then 0x1c else 0x1d
    case HandshakeDone => 0x1e
    case Datagram(hasLen, _) => if hasLen then 0x31 else 0x30
  }

  // ----- Readers: a value and what is left, or nothing

  function RdV(s: ByteSeq): (r: Option<(nat, ByteSeq)>)
    ensures r.Some? ==> r.value.0 <= Varint.VARINT_MAX && |r.value.1| < |s|
  {
    match Varint.Decode(s)
    case None => None
    case Some((v, n)) => Varint.DecodedFits(s); Some((v, s[n..]))
  }

  function RdV2(s: ByteSeq): (r: Option<(nat, nat, ByteSeq)>)
    ensures r.Some? ==> r.value.0 <= Varint.VARINT_MAX && r.value.1 <= Varint.VARINT_MAX && |r.value.2| < |s|
  {
    match RdV(s)
    case None => None
    case Some((a, s1)) =>
      match RdV(s1)
      case None => None
      case Some((b, s2)) => Some((a, b, s2))
  }

  function RdV3(s: ByteSeq): (r: Option<(nat, nat, nat, ByteSeq)>)
    ensures r.Some? ==> r.value.0 <= Varint.VARINT_MAX && r.value.1 <= Varint.VARINT_MAX
                        && r.value.2 <= Varint.VARINT_MAX && |r.value.3| < |s|
  {
    match RdV(s)
    case None => None
    case Some((a, s1)) =>
      match RdV2(s1)
      case None => None
      case Some((b, c, s2)) => Some((a, b, c, s2))
  }

  function RdBytes(s: ByteSeq, n: nat): Option<(ByteSeq, ByteSeq)> {
    if n <= |s| then Some((s[..n], s[n..])) else None
  }

  /** Bytes behind their length. */
  function RdVBytes(s: ByteSeq): (r: Option<(ByteSeq, ByteSeq)>)
    ensures r.Some? ==> |r.value.0| <= Varint.VARINT_MAX && |r.value.1| < |s|
  {
    match RdV(s)
    case None => None
    case Some((n, s1)) => RdBytes(s1, n)
  }

  /** What is left after `pairs` pairs of varints. */
  function SkipPairs(s: ByteSeq, pairs: nat): (r: Option<ByteSeq>)
    ensures r.Some? ==> |r.value| <= |s|
    decreases pairs
  {
    if pairs == 0 then Some(s)
    else
      match RdV2(s)
      case None => None
      case Some((_, _, s1)) => SkipPairs(s1, pairs - 1)
  }

  lemma PairSuffix(s: ByteSeq)
    ensures var r := RdV2(s); r.Some? ==> r.value.2 == s[|s| - |r.value.2|..]
    ensures var r := RdV(s); r.Some? ==> r.value.1 == s[|s| - |r.value.1|..]
  {
    hide Varint.Decode;
  }

  // ----- Decoding

  function RdEcn(t: nat, s: ByteSeq): Option<(Option<Ecn>, ByteSeq)> {
    if t != 0x03 then Some((None, s))
    else
      match RdV3(s)
      case None => None
      case Some((a, b, c, s1)) => Some((Some(Ecn(a, b, c)), s1))
  }

  function RdRanges(s: ByteSeq, count: nat): Option<(Ranges, ByteSeq)> {
    match SkipPairs(s, count)
    case None => None
    case Some(s1) => Some((Ranges(count, s[..|s| - |s1|]), s1))
  }

  function DecodeAck(t: nat, s: ByteSeq): Option<(Frame, ByteSeq)> {
    match RdV2(s)
    case None => None
    case Some((largest, delay, s1)) =>
      match RdV2(s1)
      case None => None
      case Some((count, first, s2)) =>
        if first > largest then None
        else
          match RdRanges(s2, count)
          case None => None
          case Some((ranges, s3)) =>
            match RdEcn(t, s3)
            case None => None
            case Some((ecn, s4)) => Some((Ack(largest, delay, first, ranges, ecn), s4))
  }

  predicate OffsetOk(offset: nat, len: nat) { offset < MAX_OFFSET && len <= MAX_OFFSET - offset }

  /** An offset, if there is to be one. */
  function RdOff(has: bool, s: ByteSeq): Option<(Option<nat>, ByteSeq)> {
    if !has then Some((None, s))
    else match RdV(s)
      case None => None
      case Some((v, s1)) => Some((Some(v), s1))
  }

  function OffsetOf(off: Option<nat>): nat { if off.Some? then off.value else 0 }

  /** Bytes behind their length or, without one, all that is left. */
  function RdData(hasLen: bool, s: ByteSeq): Option<(ByteSeq, ByteSeq)> {
    if hasLen then RdVBytes(s) else Some((s, []))
  }

  function DecodeStream(fin: bool, hasLen: bool, hasOff: bool, s: ByteSeq): Option<(Frame, ByteSeq)> {
    match RdV(s)
    case None => None
    case Some((id, s1)) =>
      match RdOff(hasOff, s1)
      case None => None
      case Some((off, s2)) =>
        match RdData(hasLen, s2)
        case None => None
        case Some((data, s3)) =>
          if OffsetOk(OffsetOf(off), |data|) then Some((Stream(fin, hasLen, id, off, data), s3)) else None
  }

  function DecodeNewConnId(s: ByteSeq): Option<(Frame, ByteSeq)> {
    match RdV2(s)
    case None => None
    case Some((sq, prior, s1)) =>
      if s1 == [] || s1[0] == 0 || s1[0] > MAX_CID || prior > sq then None
      else
        match RdBytes(s1[1..], s1[0])
        case None => None
        case Some((cid, s2)) =>
          match RdBytes(s2, RESET_TOKEN_LEN)
          case None => None
          case Some((token, s3)) => Some((NewConnectionId(sq, prior, cid, token), s3))
  }

  function DecodeClose(t: nat, s: ByteSeq): Option<(Frame, ByteSeq)> {
    match RdV(s)
    case None => None
    case Some((error, s1)) =>
      match RdOff(t == 0x1c, s1)
      case None => None
      case Some((ft, s2)) =>
        match RdVBytes(s2)
        case None => None
        case Some((reason, s3)) => Some((ConnectionClose(error, ft, reason), s3))
  }

  /** How many zero bytes `s` begins with. */
  function ZeroRun(s: ByteSeq): (n: nat)
    ensures n <= |s| && (n < |s| ==> s[n] != 0) && forall i :: 0 <= i < n ==> s[i] == 0
  {
    if s == [] || s[0] != 0 then 0 else 1 + ZeroRun(s[1..])
  }

  /** The frames whose body is one varint. */
  function DecodeOne(t: nat, v: nat): Option<Frame> {
    match t
    case 0x10 => Some(MaxData(v))
    case 0x12 => if v <= MAX_STREAMS then Some(MaxStreams(false, v)) else None
    case 0x13 => if v <= MAX_STREAMS then Some(MaxStreams(true, v)) else None
    case 0x14 => Some(DataBlocked(v))
    case 0x16 => if v <= MAX_STREAMS then Some(StreamsBlocked(false, v)) else None
    case 0x17 => if v <= MAX_STREAMS then Some(StreamsBlocked(true, v)) else None
    case 0x19 => Some(RetireConnectionId(v))
    case _ => None
  }

  function DecodeTwo(t: nat, a: nat, b: nat): Option<Frame> {
    match t
    case 0x05 => Some(StopSending(a, b))
    case 0x11 => Some(MaxStreamData(a, b))
    case 0x15 => Some(StreamDataBlocked(a, b))
    case _ => None
  }

  /** The frames whose body is bytes, behind a length or not. */
  function DecodeBytes(t: nat, s: ByteSeq): Option<(Frame, ByteSeq)> {
    match t
    case 0x06 =>
      (match RdV(s)
       case None => None
       case Some((offset, s1)) =>
         match RdVBytes(s1)
         case None => None
         case Some((data, s2)) => if OffsetOk(offset, |data|) then Some((Crypto(offset, data), s2)) else None)
    case 0x07 =>
      (match RdVBytes(s)
       case None => None
       case Some((token, s1)) => if token != [] then Some((NewToken(token), s1)) else None)
    case 0x1a =>
      (match RdBytes(s, PATH_DATA_LEN) case None => None case Some((p, s1)) => Some((PathChallenge(p), s1)))
    case 0x1b =>
      (match RdBytes(s, PATH_DATA_LEN) case None => None case Some((p, s1)) => Some((PathResponse(p), s1)))
    case _ =>
      match RdData(t == 0x31, s)
      case None => None
      case Some((data, s1)) => Some((Datagram(t == 0x31, data), s1))
  }

  predicate OneVarint(t: nat) { t == 0x10 || 0x12 <= t <= 0x14 || t == 0x16 || t == 0x17 || t == 0x19 }

  predicate TwoVarints(t: nat) { t == 0x05 || t == 0x11 || t == 0x15 }

  predicate BytesBody(t: nat) {
    t == 0x06 || t == 0x07 || t == 0x1a || t == 0x1b || t == 0x30 || t == 0x31
  }

  /** The body of a frame of type `t`, and what follows it. */
  function DecodeBody(t: nat, s: ByteSeq): Option<(Frame, ByteSeq)> {
    if t == 0x00 then Some((Padding(1 + ZeroRun(s)), s[ZeroRun(s)..]))
    else if t == 0x01 then Some((Ping, s))
    else if t == 0x1e then Some((HandshakeDone, s))
    else if t == 0x02 || t == 0x03 then DecodeAck(t, s)
    else if t == 0x04 then
      (match RdV3(s) case None => None case Some((a, b, c, s1)) => Some((ResetStream(a, b, c), s1)))
    else if OneVarint(t) then
      (match RdV(s)
       case None => None
       case Some((v, s1)) => match DecodeOne(t, v) case None => None case Some(f) => Some((f, s1)))
    else if TwoVarints(t) then
      (match RdV2(s)
       case None => None
       case Some((a, b, s1)) => match DecodeTwo(t, a, b) case None => None case Some(f) => Some((f, s1)))
    else if t == 0x18 then DecodeNewConnId(s)
    else if t == 0x1c || t == 0x1d then DecodeClose(t, s)
    else if BytesBody(t) then DecodeBytes(t, s)
    else if 0x08 <= t <= 0x0f then DecodeStream(t % 2 == 1, t / 2 % 2 == 1, t / 4 % 2 == 1, s)
    else None
  }

  /** The next frame of a packet, and what follows it. */
  function Decode(s: ByteSeq): Option<(Frame, ByteSeq)> {
    match RdV(s)
    case None => None
    case Some((t, s1)) => DecodeBody(t, s1)
  }

  // ----- Encoding

  /** A varint, or nothing for a value that has none. */
  function V(v: nat): ByteSeq { if v <= Varint.VARINT_MAX then Varint.Encode(v) else [] }

  predicate Fits(v: nat) { v <= Varint.VARINT_MAX }

  function VBytes(data: ByteSeq): ByteSeq { V(|data|) + data }

  function BodyBytes(f: Frame): ByteSeq {
    match f
    case Padding(run) => []
    case Ping => []
    case HandshakeDone => []
    case Ack(largest, delay, first, ranges, ecn) =>
      V(largest) + (V(delay) + (V(ranges.count) + (V(first) + (ranges.data + EcnBytes(ecn)))))
    case ResetStream(a, b, c) => V(a) + (V(b) + V(c))
    case StopSending(a, b) => V(a) + V(b)
    case Crypto(offset, data) => V(offset) + VBytes(data)
    case NewToken(token) => VBytes(token)
    case Stream(_, hasLen, id, off, data) =>
      V(id) + (OffBytes(off) + DataBytes(hasLen, data))
    case MaxData(v) => V(v)
    case MaxStreamData(a, b) => V(a) + V(b)
    case MaxStreams(_, v) => V(v)
    case DataBlocked(v) => V(v)
    case StreamDataBlocked(a, b) => V(a) + V(b)
    case StreamsBlocked(_, v) => V(v)
    case NewConnectionId(sq, prior, cid, token) => V(sq) + (V(prior) + ([|cid| % 256] + (cid + token)))
    case RetireConnectionId(v) => V(v)
    case PathChallenge(p) => p
    case PathResponse(p) => p
    case ConnectionClose(error, ft, reason) => V(error) + (OffBytes(ft) + VBytes(reason))
    case Datagram(_, data) => VBytes(data)
  }

  function EcnBytes(ecn: Option<Ecn>): ByteSeq {
    if ecn.Some? then V(ecn.value.ect0) + (V(ecn.value.ect1) + V(ecn.value.ce)) else []
  }

  function DataBytes(hasLen: bool, data: ByteSeq): ByteSeq { if hasLen then VBytes(data) else data }

  function OffBytes(off: Option<nat>): ByteSeq { if off.Some? then V(off.value) else [] }

  /** Whether every integer in a frame has an encoding. The form of DATAGRAM without a length is
      never written. */
  predicate Encodable(f: Frame) {
    match f
    case Ack(largest, delay, first, ranges, ecn) =>
      && Fits(largest) && Fits(delay) && Fits(first) && Fits(ranges.count)
      && (ecn.Some? ==> Fits(ecn.value.ect0) && Fits(ecn.value.ect1) && Fits(ecn.value.ce))
    case ResetStream(a, b, c) => Fits(a) && Fits(b) && Fits(c)
    case StopSending(a, b) => Fits(a) && Fits(b)
    case Crypto(offset, data) => Fits(offset) && Fits(|data|)
    case NewToken(token) => Fits(|token|)
    case Stream(_, hasLen, id, off, data) => Fits(id) && Fits(OffsetOf(off)) && (hasLen ==> Fits(|data|))
    case MaxStreamData(a, b) => Fits(a) && Fits(b)
    case StreamDataBlocked(a, b) => Fits(a) && Fits(b)
    case MaxData(v) => Fits(v)
    case MaxStreams(_, v) => Fits(v)
    case DataBlocked(v) => Fits(v)
    case StreamsBlocked(_, v) => Fits(v)
    case NewConnectionId(sq, prior, cid, token) => Fits(sq) && Fits(prior) && 0 < |cid| <= MAX_CID
    case RetireConnectionId(v) => Fits(v)
    case ConnectionClose(error, ft, reason) => Fits(error) && Fits(OffsetOf(ft)) && Fits(|reason|)
    case Datagram(hasLen, data) => hasLen && Fits(|data|)
    case _ => true
  }

  function Zeros(n: nat): (r: ByteSeq)
    ensures |r| == n
  {
    seq(n, _ => 0)
  }

  function Encode(f: Frame): Option<ByteSeq> {
    if f.Padding? then Some(Zeros(f.run))
    else if Encodable(f) then Some(V(TypeOf(f)) + BodyBytes(f))
    else None
  }

  // ----- Sizes

  /** How many bytes a frame takes. */
  function Size(f: Frame): nat {
    match f
    case Padding(run) => run
    case Ping => 1
    case HandshakeDone => 1
    case Ack(largest, delay, first, ranges, ecn) =>
      1 + Varint.Size(largest) + Varint.Size(delay) + Varint.Size(ranges.count) + Varint.Size(first)
      + |ranges.data|
      + (if ecn.Some? then Varint.Size(ecn.value.ect0) + Varint.Size(ecn.value.ect1) + Varint.Size(ecn.value.ce)
         else 0)
    case ResetStream(a, b, c) => 1 + Varint.Size(a) + Varint.Size(b) + Varint.Size(c)
    case StopSending(a, b) => 1 + Varint.Size(a) + Varint.Size(b)
    case Crypto(offset, data) => 1 + Varint.Size(offset) + Varint.Size(|data|) + |data|
    case NewToken(token) => 1 + Varint.Size(|token|) + |token|
    case Stream(_, hasLen, id, off, data) =>
      1 + Varint.Size(id) + |data| + (if off.Some? then Varint.Size(off.value) else 0)
      + (if hasLen then Varint.Size(|data|) else 0)
    case MaxData(v) => 1 + Varint.Size(v)
    case MaxStreamData(a, b) => 1 + Varint.Size(a) + Varint.Size(b)
    case MaxStreams(_, v) => 1 + Varint.Size(v)
    case DataBlocked(v) => 1 + Varint.Size(v)
    case StreamDataBlocked(a, b) => 1 + Varint.Size(a) + Varint.Size(b)
    case StreamsBlocked(_, v) => 1 + Varint.Size(v)
    case NewConnectionId(sq, prior, cid, token) =>
      1 + Varint.Size(sq) + Varint.Size(prior) + 1 + |cid| + RESET_TOKEN_LEN
    case RetireConnectionId(v) => 1 + Varint.Size(v)
    case PathChallenge(_) => 1 + PATH_DATA_LEN
    case PathResponse(_) => 1 + PATH_DATA_LEN
    case ConnectionClose(error, ft, reason) =>
      1 + Varint.Size(error) + Varint.Size(|reason|) + |reason|
      + (if ft.Some? then Varint.Size(ft.value) else 0)
    case Datagram(hasLen, data) => if hasLen then 1 + Varint.Size(|data|) + |data| else 0
  }

  // ----- Round trips

  /** A frame the decoder would report: what it checks, and the lengths its arrays have. */
  predicate WellFormed(f: Frame) {
    match f
    case Padding(run) => run > 0
    case Ack(largest, _, first, ranges, _) => first <= largest && SkipPairs(ranges.data, ranges.count) == Some([])
    case Crypto(offset, data) => OffsetOk(offset, |data|)
    case NewToken(token) => token != []
    case Stream(_, _, _, off, data) => OffsetOk(OffsetOf(off), |data|)
    case MaxStreams(_, v) => v <= MAX_STREAMS
    case StreamsBlocked(_, v) => v <= MAX_STREAMS
    case NewConnectionId(sq, prior, cid, token) =>
      prior <= sq && 0 < |cid| <= MAX_CID && |token| == RESET_TOKEN_LEN
    case PathChallenge(p) => |p| == PATH_DATA_LEN
    case PathResponse(p) => |p| == PATH_DATA_LEN
    case _ => true
  }

  /** A frame that runs to the end of its packet. */
  predicate OpenEnded(f: Frame) { (f.Stream? && !f.hasLen) || (f.Datagram? && !f.hasLen) }

  lemma ReadV(v: nat, rest: ByteSeq)
    requires Fits(v)
    ensures RdV(V(v) + rest) == Some((v, rest))
  {
    hide Varint.Encode, Varint.Decode;
    Varint.RoundTrip(v, rest);
    assert (V(v) + rest)[|V(v)|..] == rest;
  }

  lemma ReadV2(a: nat, b: nat, rest: ByteSeq)
    requires Fits(a) && Fits(b)
    ensures RdV2(V(a) + V(b) + rest) == Some((a, b, rest))
  {
    hide V, RdV;
    assert V(a) + V(b) + rest == V(a) + (V(b) + rest);
    ReadV(a, V(b) + rest);
    ReadV(b, rest);
  }

  lemma ReadV3(a: nat, b: nat, c: nat, rest: ByteSeq)
    requires Fits(a) && Fits(b) && Fits(c)
    ensures RdV3(V(a) + (V(b) + V(c)) + rest) == Some((a, b, c, rest))
  {
    hide V, RdV, RdV2;
    assert V(a) + (V(b) + V(c)) + rest == V(a) + (V(b) + V(c) + rest);
    ReadV(a, V(b) + V(c) + rest);
    ReadV2(b, c, rest);
  }

  lemma ReadVBytes(data: ByteSeq, rest: ByteSeq)
    requires Fits(|data|)
    ensures RdVBytes(VBytes(data) + rest) == Some((data, rest))
  {
    hide V, RdV;
    assert VBytes(data) + rest == V(|data|) + (data + rest);
    ReadV(|data|, data + rest);
    assert (data + rest)[..|data|] == data && (data + rest)[|data|..] == rest;
  }

  lemma ReadOff(off: Option<nat>, rest: ByteSeq)
    requires Fits(OffsetOf(off))
    ensures RdOff(off.Some?, OffBytes(off) + rest) == Some((off, rest))
  {
    hide V, RdV;
    if off.Some? {
      ReadV(off.value, rest);
    } else {
      assert [] + rest == rest;
    }
  }

  lemma {:induction false} ReadPairs(data: ByteSeq, rest: ByteSeq, n: nat)
    requires SkipPairs(data, n).Some?
    ensures SkipPairs(data + rest, n) == Some(SkipPairs(data, n).value + rest)
    decreases n
  {
    hide RdV2;
    if n > 0 {
      PairExtends(data, rest);
      ReadPairs(RdV2(data).value.2, rest, n - 1);
    }
  }

  lemma PairExtends(s: ByteSeq, rest: ByteSeq)
    requires RdV2(s).Some?
    ensures var (a, b, t) := RdV2(s).value;
            RdV2(s + rest) == Some((a, b, t + rest))
  {
    hide RdV;
    VarintExtends(s, rest);
    VarintExtends(RdV(s).value.1, rest);
  }

  lemma VarintExtends(s: ByteSeq, rest: ByteSeq)
    requires RdV(s).Some?
    ensures var (a, t) := RdV(s).value;
            RdV(s + rest) == Some((a, t + rest))
  {
    hide Varint.Decode;
    Varint.DecodeExtends(s, rest);
    var n := Varint.Decode(s).value.1;
    assert (s + rest)[n..] == s[n..] + rest;
  }

  lemma ReadEcn(ecn: Option<Ecn>, rest: ByteSeq)
    requires ecn.Some? ==> Fits(ecn.value.ect0) && Fits(ecn.value.ect1) && Fits(ecn.value.ce)
    ensures RdEcn(if ecn.Some? then 0x03 else 0x02, EcnBytes(ecn) + rest) == Some((ecn, rest))
  {
    hide V, RdV3;
    if ecn.Some? {
      ReadV3(ecn.value.ect0, ecn.value.ect1, ecn.value.ce, rest);
    } else {
      assert [] + rest == rest;
    }
  }

  lemma ReadRanges(ranges: Ranges, rest: ByteSeq)
    requires SkipPairs(ranges.data, ranges.count) == Some([])
    ensures RdRanges(ranges.data + rest, ranges.count) == Some((ranges, rest))
  {
    hide SkipPairs;
    ReadPairs(ranges.data, rest, ranges.count);
    assert [] + rest == rest;
    assert (ranges.data + rest)[..|ranges.data|] == ranges.data;
  }

  lemma AckRoundTrip(f: Frame, rest: ByteSeq)
    requires f.Ack? && WellFormed(f) && Encodable(f)
    ensures DecodeBody(TypeOf(f), BodyBytes(f) + rest) == Some((f, rest))
  {
    hide V, RdV2, RdEcn, RdRanges, EcnBytes, SkipPairs;
    var tail := f.ranges.data + (EcnBytes(f.ecn) + rest);
    var mid := V(f.ranges.count) + V(f.firstRange) + tail;
    assert BodyBytes(f) + rest == V(f.largest) + V(f.delay) + mid;
    ReadV2(f.largest, f.delay, mid);
    ReadV2(f.ranges.count, f.firstRange, tail);
    ReadRanges(f.ranges, EcnBytes(f.ecn) + rest);
    ReadEcn(f.ecn, rest);
  }

  lemma StreamRoundTrip(f: Frame, rest: ByteSeq)
    requires f.Stream? && WellFormed(f) && Encodable(f) && (!f.hasLen ==> rest == [])
    ensures DecodeBody(TypeOf(f), BodyBytes(f) + rest) == Some((f, rest))
  {
    hide V, RdV, RdOff, OffBytes, RdVBytes, VBytes;
    var data := DataBytes(f.hasLen, f.data);
    var s2 := data + rest;
    var s1 := OffBytes(f.off) + s2;
    assert BodyBytes(f) + rest == V(f.id) + s1;
    ReadV(f.id, s1);
    ReadOff(f.off, s2);
    if f.hasLen {
      ReadVBytes(f.data, rest);
    } else {
      assert s2 == f.data;
    }
    StreamType(f);
  }

  lemma StreamType(f: Frame)
    requires f.Stream?
    ensures var t := TypeOf(f);
            0x08 <= t <= 0x0f && (t % 2 == 1) == f.fin && (t / 2 % 2 == 1) == f.hasLen
            && (t / 4 % 2 == 1) == f.off.Some?
  {
  }

  lemma ConnIdRoundTrip(f: Frame, rest: ByteSeq)
    requires f.NewConnectionId? && WellFormed(f) && Encodable(f)
    ensures DecodeBody(TypeOf(f), BodyBytes(f) + rest) == Some((f, rest))
  {
    hide V, RdV2;
    var s3 := f.token + rest;
    var s2 := f.cid + s3;
    var s1 := [|f.cid|] + s2;
    assert BodyBytes(f) + rest == V(f.seq_) + V(f.retirePrior) + s1;
    ReadV2(f.seq_, f.retirePrior, s1);
    assert s1[1..] == s2 && s2[..|f.cid|] == f.cid && s2[|f.cid|..] == s3;
    assert s3[..RESET_TOKEN_LEN] == f.token && s3[RESET_TOKEN_LEN..] == rest;
  }

  lemma CloseRoundTrip(f: Frame, rest: ByteSeq)
    requires f.ConnectionClose? && Encodable(f)
    ensures DecodeBody(TypeOf(f), BodyBytes(f) + rest) == Some((f, rest))
  {
    hide V, RdV, RdOff, OffBytes, RdVBytes, VBytes;
    var s2 := VBytes(f.reason) + rest;
    var s1 := OffBytes(f.frameType) + s2;
    assert BodyBytes(f) + rest == V(f.error) + s1;
    ReadV(f.error, s1);
    ReadOff(f.frameType, s2);
    ReadVBytes(f.reason, rest);
  }

  predicate PlainVarints(f: Frame) { OneVarint(TypeOf(f)) || TwoVarints(TypeOf(f)) || f.ResetStream? }

  lemma VarintsRoundTrip(f: Frame, rest: ByteSeq)
    requires PlainVarints(f) && WellFormed(f) && Encodable(f)
    ensures DecodeBody(TypeOf(f), BodyBytes(f) + rest) == Some((f, rest))
  {
    hide V, RdV, RdV2, RdV3;
    match f
    case ResetStream(a, b, c) => ReadV3(a, b, c, rest);
    case StopSending(a, b) => ReadV2(a, b, rest);
    case MaxStreamData(a, b) => ReadV2(a, b, rest);
    case StreamDataBlocked(a, b) => ReadV2(a, b, rest);
    case MaxData(v) => ReadV(v, rest);
    case MaxStreams(_, v) => ReadV(v, rest);
    case DataBlocked(v) => ReadV(v, rest);
    case StreamsBlocked(_, v) => ReadV(v, rest);
    case RetireConnectionId(v) => ReadV(v, rest);
  }

  lemma BytesRoundTrip(f: Frame, rest: ByteSeq)
    requires BytesBody(TypeOf(f)) && WellFormed(f) && Encodable(f)
    ensures DecodeBody(TypeOf(f), BodyBytes(f) + rest) == Some((f, rest))
  {
    hide V, RdV, RdVBytes, VBytes;
    match f
    case Crypto(offset, data) =>
      assert BodyBytes(f) + rest == V(offset) + (VBytes(data) + rest);
      ReadV(offset, VBytes(data) + rest);
      ReadVBytes(data, rest);
    case NewToken(token) => ReadVBytes(token, rest);
    case PathChallenge(p) => assert (p + rest)[..|p|] == p && (p + rest)[|p|..] == rest;
    case PathResponse(p) => assert (p + rest)[..|p|] == p && (p + rest)[|p|..] == rest;
    case Datagram(_, data) => ReadVBytes(data, rest);
  }

  lemma BodyRoundTrip(f: Frame, rest: ByteSeq)
    requires WellFormed(f) && Encodable(f) && !f.Padding? && (OpenEnded(f) ==> rest == [])
    ensures DecodeBody(TypeOf(f), BodyBytes(f) + rest) == Some((f, rest))
  {
    if f.Ack? {
      AckRoundTrip(f, rest);
    } else if f.Stream? {
      StreamRoundTrip(f, rest);
    } else if f.NewConnectionId? {
      ConnIdRoundTrip(f, rest);
    } else if f.ConnectionClose? {
      CloseRoundTrip(f, rest);
    } else if BytesBody(TypeOf(f)) {
      BytesRoundTrip(f, rest);
    } else if PlainVarints(f) {
      VarintsRoundTrip(f, rest);
    } else {
      assert [] + rest == rest;
    }
  }

  // ----- Whole frames

  lemma SmallVarint(v: nat)
    requires v < 0x40
    ensures V(v) == [v]
  {
    assert Varint.BigEndian(v, 1) == [v] by {
      assert Varint.BigEndian(v, 0) == [];
    }
  }

  lemma ZeroRunIs(n: nat, rest: ByteSeq)
    requires rest == [] || rest[0] != 0
    ensures ZeroRun(Zeros(n) + rest) == n
  {
    var s := Zeros(n) + rest;
    assert n < |s| ==> s[n] != 0;
    assert ZeroRun(s) < |s| ==> s[ZeroRun(s)] != 0;
  }

  /** A frame, written and read back, is itself, and leaves alone what follows it: which after
      PADDING must not be more padding, and after a frame without a length must be nothing. */
  lemma RoundTrip(f: Frame, rest: ByteSeq)
    requires WellFormed(f) && Encodable(f) && (OpenEnded(f) ==> rest == [])
    requires f.Padding? ==> rest == [] || rest[0] != 0
    ensures Decode(Encode(f).value + rest) == Some((f, rest))
  {
    hide V, RdV, DecodeBody, BodyBytes, ZeroRun;
    var t := TypeOf(f);
    var s := Encode(f).value + rest;
    if f.Padding? {
      var more := Zeros(f.run - 1) + rest;
      SmallVarint(0);
      assert s == V(0) + more;
      ReadV(0, more);
      PaddingBody(f.run, rest);
    } else {
      assert s == V(t) + (BodyBytes(f) + rest);
      ReadV(t, BodyBytes(f) + rest);
      BodyRoundTrip(f, rest);
    }
  }

  lemma PaddingBody(run: nat, rest: ByteSeq)
    requires run > 0 && (rest == [] || rest[0] != 0)
    ensures DecodeBody(0, Zeros(run - 1) + rest) == Some((Padding(run), rest))
  {
    hide ZeroRun;
    ZeroRunIs(run - 1, rest);
    assert (Zeros(run - 1) + rest)[run - 1..] == rest;
  }

  lemma FirstByte(f: Frame)
    requires Encodable(f) && (f.Padding? ==> f.run > 0)
    ensures Encode(f).value != [] && (Encode(f).value[0] == 0 <==> f.Padding?)
  {
    hide V, BodyBytes;
    SmallVarint(TypeOf(f));
  }

  lemma VSize(v: nat)
    ensures Fits(v) ==> |V(v)| == Varint.Size(v)
  {
    hide Varint.Encode;
  }

  /** The size of a frame is the number of bytes its encoding has. */
  lemma SizeExact(f: Frame)
    requires Encodable(f) && WellFormed(f)
    ensures |Encode(f).value| == Size(f) > 0
  {
    hide V, BodyBytes, Size, WellFormed, Encodable;
    SmallVarint(TypeOf(f));
    BodySize(f);
    PaddingRun(f);
    EncodableEncodes(f);
  }

  lemma BodySize(f: Frame)
    requires Encodable(f) && WellFormed(f)
    ensures Size(f) == if f.Padding? then f.run else 1 + |BodyBytes(f)|
  {
    hide V, Varint.Size, SkipPairs;
    match f
    case Ack(a, b, c, r, ecn) =>
      VSize(a); VSize(b); VSize(c); VSize(r.count);
      if ecn.Some? {
        VSize(ecn.value.ect0); VSize(ecn.value.ect1); VSize(ecn.value.ce);
      }
    case ResetStream(a, b, c) => VSize(a); VSize(b); VSize(c);
    case StopSending(a, b) => VSize(a); VSize(b);
    case Crypto(offset, data) => VSize(offset); VSize(|data|);
    case NewToken(token) => VSize(|token|);
    case Stream(_, _, id, off, data) => VSize(id); VSize(OffsetOf(off)); VSize(|data|);
    case MaxData(v) => VSize(v);
    case MaxStreamData(a, b) => VSize(a); VSize(b);
    case MaxStreams(_, v) => VSize(v);
    case DataBlocked(v) => VSize(v);
    case StreamDataBlocked(a, b) => VSize(a); VSize(b);
    case StreamsBlocked(_, v) => VSize(v);
    case NewConnectionId(a, b, _, _) => VSize(a); VSize(b);
    case RetireConnectionId(v) => VSize(v);
    case ConnectionClose(a, ft, reason) => VSize(a); VSize(OffsetOf(ft)); VSize(|reason|);
    case Datagram(_, data) => VSize(|data|);
    case _ =>
  }

  // ----- Packets full of frames

  function EncodeAll(fs: seq<Frame>): ByteSeq {
    if fs == [] then []
    else (if Encode(fs[0]).Some? then Encode(fs[0]).value else []) + EncodeAll(fs[1..])
  }

  function SizeAll(fs: seq<Frame>): nat {
    if fs == [] then 0 else Size(fs[0]) + SizeAll(fs[1..])
  }

  /** Every frame of a packet, if all of it is frames. */
  function DecodeAll(s: ByteSeq): Option<seq<Frame>>
    decreases |s|
  {
    if s == [] then Some([])
    else
      match Decode(s)
      case None => None
      case Some((f, rest)) =>
        DecodeConsumes(s);
        match DecodeAll(rest)
        case None => None
        case Some(fs) => Some([f] + fs)
  }

  lemma BodyConsumes(t: nat, s: ByteSeq)
    ensures DecodeBody(t, s).Some? ==> |DecodeBody(t, s).value.1| <= |s|
  {
    hide RdV, RdV2, RdV3, RdVBytes, SkipPairs, ZeroRun;
    if t == 0x02 || t == 0x03 {
      AckConsumes(t, s);
    } else if 0x08 <= t <= 0x0f {
      StreamConsumes(t % 2 == 1, t / 2 % 2 == 1, t / 4 % 2 == 1, s);
    }
  }

  lemma AckConsumes(t: nat, s: ByteSeq)
    ensures DecodeAck(t, s).Some? ==> |DecodeAck(t, s).value.1| <= |s|
  {
    hide RdV, RdV2, RdV3, SkipPairs;
  }

  lemma StreamConsumes(fin: bool, hasLen: bool, hasOff: bool, s: ByteSeq)
    ensures var d := DecodeStream(fin, hasLen, hasOff, s); d.Some? ==> |d.value.1| <= |s|
  {
    hide RdV, RdVBytes;
  }

  lemma DecodeConsumes(s: ByteSeq)
    ensures Decode(s).Some? ==> |Decode(s).value.1| < |s|
  {
    hide RdV, DecodeBody;
    if RdV(s).Some? {
      BodyConsumes(RdV(s).value.0, RdV(s).value.1);
    }
  }

  /** A packet's frames: each well formed, none but the last without a length, and no two runs of
      padding side by side, since those would be one. */
  predicate Packet(fs: seq<Frame>) {
    && (forall i :: 0 <= i < |fs| ==> WellFormed(fs[i]) && Encodable(fs[i]))
    && (forall i :: 0 <= i < |fs| - 1 ==> !OpenEnded(fs[i]))
    && (forall i :: 0 <= i < |fs| - 1 ==> !(fs[i].Padding? && fs[i + 1].Padding?))
  }

  /** Frames delimit themselves: a packet's worth, written one after another, takes exactly the sum
      of their sizes and is read back as the same frames with nothing left over. */
  lemma {:induction false} PacketRoundTrip(fs: seq<Frame>)
    requires Packet(fs)
    ensures |EncodeAll(fs)| == SizeAll(fs)
    ensures DecodeAll(EncodeAll(fs)) == Some(fs)
  {
    hide Encode, Decode, Size, WellFormed, Encodable, OpenEnded;
    if fs != [] {
      var f, more := fs[0], fs[1..];
      assert forall i :: 0 <= i < |more| ==> more[i] == fs[i + 1];
      PacketRoundTrip(more);
      var rest := EncodeAll(more);
      EncodableEncodes(f);
      SizeExact(f);
      if more != [] {
        EncodableEncodes(more[0]);
        SizeExact(more[0]);
        PaddingRun(more[0]);
        FirstByte(more[0]);
      }
      RoundTrip(f, rest);
      assert [f] + more == fs;
    }
  }

  lemma EncodableEncodes(f: Frame)
    ensures Encodable(f) ==> Encode(f).Some?
  {
    hide BodyBytes, V;
  }

  lemma PaddingRun(f: Frame)
    ensures WellFormed(f) && f.Padding? ==> f.run > 0
  {
  }

  // ----- Everything decoded is well formed

  lemma {:induction false} SkippedPairs(s: ByteSeq, n: nat)
    requires SkipPairs(s, n).Some?
    ensures var rest := SkipPairs(s, n).value;
            SkipPairs(s[..|s| - |rest|], n) == Some([])
    decreases n
  {
    hide RdV2;
    if n > 0 {
      var (a, b, t) := RdV2(s).value;
      var rest := SkipPairs(s, n).value;
      SkippedPairs(t, n - 1);
      PairSuffix(s);
      PairAgain(s, s[..|s| - |rest|]);
      assert s[..|s| - |rest|][|s| - |t|..] == t[..|t| - |rest|];
    }
  }

  /** Reading a pair looks no further than the pair. */
  lemma PairAgain(s: ByteSeq, p: ByteSeq)
    requires RdV2(s).Some? && p <= s && |s| - |RdV2(s).value.2| <= |p|
    ensures var (a, b, t) := RdV2(s).value;
            RdV2(p) == Some((a, b, p[|s| - |t|..]))
  {
    hide RdV;
    VarintAgain(s, p);
    PairSuffix(s);
    var t := RdV(s).value.1;
    var k := |s| - |t|;
    assert p[k..] <= t;
    VarintAgain(t, p[k..]);
    var u := RdV2(s).value.2;
    assert p[k..][|t| - |u|..] == p[|s| - |u|..];
  }

  lemma VarintAgain(s: ByteSeq, p: ByteSeq)
    requires RdV(s).Some? && p <= s && |s| - |RdV(s).value.1| <= |p|
    ensures RdV(p) == Some((RdV(s).value.0, p[|s| - |RdV(s).value.1|..]))
  {
    hide Varint.FromBigEndian;
    var n := Varint.Decode(s).value.1;
    assert p[0] == s[0] && p[1..n] == s[1..n];
  }

  lemma AckIsWellFormed(t: nat, s: ByteSeq)
    requires (t == 0x02 || t == 0x03) && DecodeAck(t, s).Some?
    ensures var f := DecodeAck(t, s).value.0;
            WellFormed(f) && Encodable(f) && TypeOf(f) == t
  {
    hide RdV2, RdV3, SkipPairs;
    var s1 := RdV2(s).value.2;
    var (count, _, s2) := RdV2(s1).value;
    SkippedPairs(s2, count);
  }

  lemma OthersAreWellFormed(t: nat, s: ByteSeq)
    requires t != 0x02 && t != 0x03 && DecodeBody(t, s).Some?
    ensures var f := DecodeBody(t, s).value.0;
            WellFormed(f) && (Encodable(f) || (f.Datagram? && !f.hasLen)) && TypeOf(f) == t
  {
    hide RdV, RdV2, RdV3, RdVBytes, DecodeAck, DecodeStream, DecodeBytes, DecodeOne, DecodeTwo;
    if 0x08 <= t <= 0x0f {
      StreamIsWellFormed(t, s);
    } else if BytesBody(t) {
      BytesIsWellFormed(t, s);
    } else if OneVarint(t) {
      OneIsWellFormed(t, RdV(s).value.0);
    } else if TwoVarints(t) {
      TwoIsWellFormed(t, RdV2(s).value.0, RdV2(s).value.1);
    }
  }

  lemma StreamIsWellFormed(t: nat, s: ByteSeq)
    requires 0x08 <= t <= 0x0f
    ensures var d := DecodeStream(t % 2 == 1, t / 2 % 2 == 1, t / 4 % 2 == 1, s);
            d.Some? ==> WellFormed(d.value.0) && Encodable(d.value.0) && TypeOf(d.value.0) == t
  {
    hide RdV, RdVBytes;
  }

  lemma BytesIsWellFormed(t: nat, s: ByteSeq)
    requires BytesBody(t)
    ensures var d := DecodeBytes(t, s);
            d.Some? ==> && WellFormed(d.value.0) && TypeOf(d.value.0) == t
                        && (Encodable(d.value.0) || (d.value.0.Datagram? && !d.value.0.hasLen))
  {
    hide RdV, RdVBytes;
  }

  lemma OneIsWellFormed(t: nat, v: nat)
    requires OneVarint(t) && Fits(v)
    ensures var d := DecodeOne(t, v);
            d.Some? ==> WellFormed(d.value) && Encodable(d.value) && TypeOf(d.value) == t
  {
  }

  lemma TwoIsWellFormed(t: nat, a: nat, b: nat)
    requires TwoVarints(t) && Fits(a) && Fits(b)
    ensures var d := DecodeTwo(t, a, b);
            d.Some? ==> WellFormed(d.value) && Encodable(d.value) && TypeOf(d.value) == t
  {
  }

  /** Whatever the decoder accepts is a well-formed frame of the type it read, which the encoder, if
      it writes that form at all, writes so that it reads back the same. */
  lemma DecodedIsWellFormed(s: ByteSeq)
    requires Decode(s).Some?
    ensures var f := Decode(s).value.0;
            && WellFormed(f)
            && (if f.Datagram? && !f.hasLen then Encode(f).None?
                else Encode(f).Some? && Decode(Encode(f).value) == Some((f, [])))
  {
    hide RdV, DecodeBody, Encode, WellFormed, Encodable;
    var (t, s1) := RdV(s).value;
    var f := Decode(s).value.0;
    if t == 0x02 || t == 0x03 {
      AckBody(t, s1);
      AckIsWellFormed(t, s1);
    } else {
      OthersAreWellFormed(t, s1);
    }
    DatagramForm(f);
    EncodableEncodes(f);
    if Encodable(f) {
      RoundTrip(f, []);
      assert Encode(f).value + [] == Encode(f).value;
    }
  }

  lemma AckBody(t: nat, s: ByteSeq)
    requires t == 0x02 || t == 0x03
    ensures DecodeBody(t, s) == DecodeAck(t, s)
  {
    hide DecodeAck;
  }

  lemma DatagramForm(f: Frame)
    ensures f.Datagram? && !f.hasLen ==> !Encodable(f) && Encode(f).None?
  {
    hide BodyBytes;
  }
}
