/** The connection-wide half of HTTP/3 (sections 5.2, 6.2 and 7.2 of RFC 9114): the peer's
    unidirectional streams, its SETTINGS, and GOAWAY in both directions. */
module H3Session {
  import opened Bytes
  import opened H3Frame
  import Varint

  const STREAM_CONTROL := 0x00
  const STREAM_PUSH := 0x01
  const STREAM_QPACK_ENCODER := 0x02
  const STREAM_QPACK_DECODER := 0x03

  const QPACK_MAX_TABLE_CAPACITY := 0x01
  const MAX_FIELD_SECTION_SIZE := 0x06
  const QPACK_BLOCKED_STREAMS := 0x07
  const ENABLE_CONNECT_PROTOCOL := 0x08

  const GENERAL_PROTOCOL_ERROR := 0x101
  const STREAM_CREATION_ERROR := 0x103
  const FRAME_UNEXPECTED := 0x105
  const FRAME_ERROR := 0x106
  const EXCESSIVE_LOAD := 0x107
  const ID_ERROR := 0x108
  const SETTINGS_ERROR := 0x109
  const MISSING_SETTINGS := 0x10a
  const QPACK_ENCODER_STREAM_ERROR := 0x201

  const MAX_CONTROL_FRAME := 16384

  datatype Settings = Settings(maxFieldSectionSize: nat, qpackMaxTableCapacity: nat,
                               qpackBlockedStreams: nat, enableConnectProtocol: bool)

  /** What the peer has told this endpoint. */
  datatype Session = Session(
    server: bool,
    peer: Settings,
    peerSettings: bool,        // its SETTINGS has arrived
    peerControl: bool,         // its control stream exists
    peerEncoder: bool,
    peerDecoder: bool,
    goaway: Option<nat>,       // the id of its latest GOAWAY
    maxPushId: nat)            // the largest push id it permits, plus one

  /** A peer that says nothing accepts field sections of any size. */
  function Start(server: bool): Session {
    Session(server, Settings(U64 - 1, 0, 0, false), false, false, false, false, None, 0)
  }

  predicate GoneAway(s: Session, streamId: nat) { s.goaway.Some? && streamId >= s.goaway.value }

  // ----- The frames of the control stream

  /** One setting applied; the identifiers this endpoint acts on may each come once. */
  function ApplySetting(t: Settings, seen: set<nat>, id: nat, val: nat): (Settings, nat) {
    if 0x02 <= id <= 0x05 then (t, SETTINGS_ERROR)
    else if id == ENABLE_CONNECT_PROTOCOL && val > 1 then (t, SETTINGS_ERROR)
    else
      var u :=
        if id == QPACK_MAX_TABLE_CAPACITY then t.(qpackMaxTableCapacity := val)
        else if id == MAX_FIELD_SECTION_SIZE then t.(maxFieldSectionSize := val)
        else if id == QPACK_BLOCKED_STREAMS then t.(qpackBlockedStreams := val)
        else if id == ENABLE_CONNECT_PROTOCOL then t.(enableConnectProtocol := val != 0)
        else t;
      (u, if Acted(id) && id in seen then SETTINGS_ERROR else 0)
  }

  predicate Acted(id: nat) {
    || id == QPACK_MAX_TABLE_CAPACITY || id == MAX_FIELD_SECTION_SIZE || id == QPACK_BLOCKED_STREAMS
    || id == ENABLE_CONNECT_PROTOCOL
  }

  function ReadSettings(t: Settings, data: ByteSeq, seen: set<nat>): (Settings, nat)
    decreases |data|
  {
    if data == [] then (t, 0)
    else
      match Varint.Decode(data)
      case None => (t, FRAME_ERROR)
      case Some((id, n)) =>
        match Varint.Decode(data[n..])
        case None => (t, FRAME_ERROR)
        case Some((val, m)) =>
          var (u, err) := ApplySetting(t, seen, id, val);
          if err != 0 then (u, err) else ReadSettings(u, data[n + m..], seen + {id})
  }

  function OnSettings(s: Session, data: ByteSeq): (Session, nat) {
    var (t, err) := ReadSettings(s.peer, data, {});
    (s.(peer := t, peerSettings := s.peerSettings || err == 0), err)
  }

  /** A payload that is one varint and nothing else. */
  function OnlyVarint(data: ByteSeq): Option<nat> {
    var v := Varint.Decode(data);
    if v.Some? && v.value.1 == |data| then Some(v.value.0) else None
  }

  function OnGoaway(s: Session, data: ByteSeq): (Session, nat) {
    match OnlyVarint(data)
    case None => (s, FRAME_ERROR)
    case Some(id) =>
      if !s.server && id % 4 != 0 then (s, ID_ERROR)
      else if s.goaway.Some? && id > s.goaway.value then (s, ID_ERROR)
      else (s.(goaway := Some(id)), 0)
  }

  function OnMaxPushId(s: Session, data: ByteSeq): (Session, nat) {
    match OnlyVarint(data)
    case None => (s, FRAME_ERROR)
    case Some(id) =>
      if s.maxPushId > 0 && id + 1 < s.maxPushId then (s, ID_ERROR)
      else (s.(maxPushId := id + 1), 0)
  }

  /** Whether a frame may come here at all, from its type alone. */
  function FrameAllowed(s: Session, ty: nat): nat {
    if ty == SETTINGS then (if s.peerSettings then FRAME_UNEXPECTED else 0)
    else if ty == GOAWAY then 0
    else if ty == MAX_PUSH_ID then (if s.server then 0 else FRAME_UNEXPECTED)
    else if ty == CANCEL_PUSH then ID_ERROR
    else if ty == DATA || ty == HEADERS || ty == PUSH_PROMISE then FRAME_UNEXPECTED
    else if ty == 0x02 || ty == 0x06 || ty == 0x08 || ty == 0x09 then FRAME_UNEXPECTED
    else 0
  }

  predicate Kept(ty: nat) { ty == SETTINGS || ty == GOAWAY || ty == MAX_PUSH_ID }

  function OnFrame(s: Session, ty: nat, data: ByteSeq): (Session, nat) {
    if ty == SETTINGS then OnSettings(s, data)
    else if ty == GOAWAY then OnGoaway(s, data)
    else if ty == MAX_PUSH_ID then OnMaxPushId(s, data)
    else (s, 0)
  }

  // ----- One unidirectional stream

  datatype Kind = Unknown | Control | QpackEncoder | QpackDecoder | Ignored

  /** A stream the peer opened: what it turned out to be, and the control frame being read. */
  datatype Uni = Uni(kind: Kind, fr: Frame, frame: ByteSeq, keep: bool)

  const UNI := Uni(Unknown, FRAME_INIT, [], false)

  datatype Stop = Go | Starved | Failed(err: nat)

  datatype Advance = Advance(s: Session, u: Uni, rest: ByteSeq, stop: Stop)

  function Classify(s: Session, ty: nat): (Session, Kind, nat) {
    if ty == STREAM_CONTROL then
      if s.peerControl then (s, Unknown, STREAM_CREATION_ERROR)
      else (s.(peerControl := true), Control, 0)
    else if ty == STREAM_PUSH then (s, Unknown, if s.server then STREAM_CREATION_ERROR else ID_ERROR)
    else if ty == STREAM_QPACK_ENCODER then
      if s.peerEncoder then (s, Unknown, STREAM_CREATION_ERROR)
      else (s.(peerEncoder := true), QpackEncoder, 0)
    else if ty == STREAM_QPACK_DECODER then
      if s.peerDecoder then (s, Unknown, STREAM_CREATION_ERROR)
      else (s.(peerDecoder := true), QpackDecoder, 0)
    else (s, Ignored, 0)
  }

  function StopOf(err: nat): Stop { if err == 0 then Go else Failed(err) }

  function StepType(s: Session, u: Uni, src: ByteSeq): Advance {
    match Varint.Decode(src)
    case None => Advance(s, u, src, Starved)
    case Some((ty, n)) =>
      var (t, kind, err) := Classify(s, ty);
      Advance(t, u.(kind := kind), src[n..], StopOf(err))
  }

  /** The header of a control frame has arrived. */
  function OnHeader(s: Session, u: Uni): (Uni, nat) {
    if !s.peerSettings && u.fr.ty != SETTINGS then (u, MISSING_SETTINGS)
    else
      var err := FrameAllowed(s, u.fr.ty);
      if err != 0 then (u, err)
      else
        var v := u.(frame := [], keep := Kept(u.fr.ty));
        (v, if v.keep && u.fr.len > MAX_CONTROL_FRAME then EXCESSIVE_LOAD else 0)
  }

  function StepControl(s: Session, u: Uni, src: ByteSeq): Advance {
    var (f, rest, r) := FrameStep(u.fr, src);
    var u := u.(fr := f);
    match r
    case NeedMore => Advance(s, u, rest, Starved)
    case Poisoned => Advance(s, u, rest, Failed(GENERAL_PROTOCOL_ERROR))
    case Header =>
      var (v, err) := OnHeader(s, u);
      Advance(s, v, rest, StopOf(err))
    case Payload(n) =>
      Advance(s, if u.keep then u.(frame := u.frame + rest[..n]) else u, rest[n..], Go)
    case Complete =>
      var (t, err) := if u.keep then OnFrame(s, f.ty, u.frame) else (s, 0);
      Advance(t, u, rest, StopOf(err))
  }

  /** With no dynamic table, the only instruction the peer's encoder may send is to set its capacity
      to nothing. */
  function StepEncoder(s: Session, u: Uni, src: ByteSeq): Advance {
    if src == [] then Advance(s, u, src, Starved)
    else if src[0] != 0x20 then Advance(s, u, src, Failed(QPACK_ENCODER_STREAM_ERROR))
    else Advance(s, u, src[1..], Go)
  }

  function Step(s: Session, u: Uni, src: ByteSeq): Advance {
    match u.kind
    case Unknown => StepType(s, u, src)
    case Control => StepControl(s, u, src)
    case QpackEncoder => StepEncoder(s, u, src)
    case _ => Advance(s, u, [], if src == [] then Starved else Go)
  }

  lemma StepConsumes(s: Session, u: Uni, src: ByteSeq)
    ensures var a := Step(s, u, src);
            && (a.stop == Go ==>
                  |a.rest| < |src| || (a.rest == src && u.fr.inFrame && !a.u.fr.inFrame))
            && (a.stop == Starved ==> a.s == s && a.u == u && a.rest == src)
            && (a.stop.Failed? ==> a.stop.err != 0)
  {
    hide Varint.Decode, OnFrame, OnHeader, Classify;
  }

  datatype Run = Run(s: Session, u: Uni, rest: ByteSeq, err: nat)

  /** Everything that can be read off the stream so far. */
  function Drive(s: Session, u: Uni, src: ByteSeq): Run
    decreases |src|, u.fr.inFrame
  {
    StepConsumes(s, u, src);
    var a := Step(s, u, src);
    match a.stop
    case Go => Drive(a.s, a.u, a.rest)
    case Starved => Run(a.s, a.u, a.rest, 0)
    case Failed(err) => Run(a.s, a.u, a.rest, err)
  }

  // ----- Any fragments

  /** A step that takes only what happens to be there. */
  predicate Partial(u: Uni, src: ByteSeq) {
    || (u.kind.Control? && !u.fr.bad && u.fr.inFrame && 0 < |src| < u.fr.remain)
    || u.kind.QpackDecoder? || u.kind.Ignored?
  }

  lemma StepExtends(s: Session, u: Uni, src: ByteSeq, more: ByteSeq)
    requires !Partial(u, src) && Step(s, u, src).stop != Starved
    ensures var a := Step(s, u, src);
            Step(s, u, src + more) == a.(rest := a.rest + more)
  {
    hide Varint.Decode, OnFrame, OnHeader, Classify, FrameStep;
    match u.kind
    case Unknown =>
      Varint.DecodeExtends(src, more);
      var n := Varint.Decode(src).value.1;
      assert (src + more)[n..] == src[n..] + more;
    case Control =>
      FrameExtends(u.fr, src, more);
      var (_, rest, r) := FrameStep(u.fr, src);
      if r.Payload? {
        assert (rest + more)[..r.avail] == rest[..r.avail] && (rest + more)[r.avail..] == rest[r.avail..] + more;
      }
    case QpackEncoder =>
      assert (src + more)[1..] == src[1..] + more;
    case _ =>
  }

  lemma PartialJoins(s: Session, u: Uni, x: ByteSeq, y: ByteSeq)
    requires Partial(u, x) && x != [] && y != []
    ensures var a := Step(s, u, x);
            && a.stop == Go && a.rest == [] && a.s == s && Step(s, u, x + y) == Step(s, a.u, y)
            && Step(s, a.u, []) == Advance(s, a.u, [], Starved)
  {
    if u.kind.Control? {
      var n := Min(|x + y|, u.fr.remain);
      assert (x + y)[..n] == x + y[..n - |x|] && (x + y)[n..] == y[n - |x|..];
      assert u.frame + (x + y[..n - |x|]) == u.frame + x + y[..n - |x|];
      assert x[..|x|] == x;
    }
  }

  lemma {:induction false} DriveSplits(s: Session, u: Uni, a: ByteSeq, b: ByteSeq)
    ensures var d := Drive(s, u, a);
            Drive(s, u, a + b) ==
              if d.err != 0 then d.(rest := d.rest + b) else Drive(d.s, d.u, d.rest + b)
    decreases |a|, u.fr.inFrame
  {
    hide Step, Partial;
    StepConsumes(s, u, a);
    var t := Step(s, u, a);
    if t.stop == Starved {
    } else if b == [] {
      assert a + b == a;
      DriveSettles(s, u, a);
      var d := Drive(s, u, a);
      assert d.rest + b == d.rest;
    } else if Partial(u, a) {
      DiscardStarves(s, u, a);
      PartialJoins(s, u, a, b);
      StepConsumes(s, u, a + b);
      StepConsumes(s, t.u, b);
      assert [] + b == b;
    } else {
      StepExtends(s, u, a, b);
      StepConsumes(s, u, a + b);
      if t.stop == Go {
        DriveSplits(t.s, t.u, t.rest, b);
      }
    }
  }

  lemma DiscardStarves(s: Session, u: Uni, src: ByteSeq)
    requires Partial(u, src) && Step(s, u, src).stop != Starved
    ensures src != []
  {
  }

  lemma {:induction false} DriveSettles(s: Session, u: Uni, src: ByteSeq)
    ensures var d := Drive(s, u, src);
            d.err == 0 ==> Drive(d.s, d.u, d.rest) == d
    decreases |src|, u.fr.inFrame
  {
    hide Step;
    StepConsumes(s, u, src);
    var a := Step(s, u, src);
    if a.stop == Go {
      DriveSettles(a.s, a.u, a.rest);
    }
  }

  /** The stream as its owner sees it: what has arrived since last time is added to what was left,
      and an error ends the connection, so nothing more is read after one. */
  function Recv(d: Run, data: ByteSeq): Run {
    if d.err != 0 then d.(rest := d.rest + data) else Drive(d.s, d.u, d.rest + data)
  }

  function Feed(d: Run, chunks: seq<ByteSeq>): Run
    decreases |chunks|
  {
    if chunks == [] then d else Feed(Recv(d, chunks[0]), chunks[1..])
  }

  function Join(chunks: seq<ByteSeq>): ByteSeq {
    if chunks == [] then [] else chunks[0] + Join(chunks[1..])
  }

  lemma {:induction false} FeedIsRecv(d: Run, chunks: seq<ByteSeq>)
    requires Recv(d, []) == d
    ensures Feed(d, chunks) == Recv(d, Join(chunks))
    decreases |chunks|
  {
    hide Drive;
    if chunks != [] {
      var e := Recv(d, chunks[0]);
      var more := Join(chunks[1..]);
      assert d.rest + (chunks[0] + more) == d.rest + chunks[0] + more;
      if d.err == 0 {
        DriveSplits(d.s, d.u, d.rest + chunks[0], more);
        DriveSettles(d.s, d.u, d.rest + chunks[0]);
        assert e.rest + [] == e.rest;
      }
      FeedIsRecv(e, chunks[1..]);
    } else {
      assert Join(chunks) == [];
    }
  }

  /** A stream read in any pieces leaves the session, the stream and the verdict exactly as the same
      bytes read at once. */
  lemma FragmentationIndependence(s: Session, chunks: seq<ByteSeq>)
    ensures Feed(Run(s, UNI, [], 0), chunks) == Drive(s, UNI, Join(chunks))
  {
    hide Drive;
    var d := Run(s, UNI, [], 0);
    NothingYet(s);
    assert d.rest + [] == [];
    FeedIsRecv(d, chunks);
    assert [] + Join(chunks) == Join(chunks);
  }

  lemma NothingYet(s: Session)
    ensures Drive(s, UNI, []) == Run(s, UNI, [], 0)
  {
  }

  // ----- What the peer has said stays said

  /** How a session may change: settings taken once, GOAWAY ids that never rise, a push limit that
      never falls, streams that stay unique. */
  predicate Evolves(s: Session, t: Session) {
    && t.server == s.server
    && (s.peerSettings ==> t.peerSettings && t.peer == s.peer)
    && (s.goaway.Some? ==> t.goaway.Some? && t.goaway.value <= s.goaway.value)
    && s.maxPushId <= t.maxPushId
    && (s.peerControl ==> t.peerControl) && (s.peerEncoder ==> t.peerEncoder)
    && (s.peerDecoder ==> t.peerDecoder)
  }

  /** A stream and the session it belongs to: nothing is taken before SETTINGS, and a SETTINGS frame
      is being read only while there has been none. */
  predicate Consistent(s: Session, u: Uni) {
    && !u.fr.bad
    && (u.kind.Control? ==> s.peerControl)
    && (u.kind.QpackEncoder? ==> s.peerEncoder)
    && (u.kind.QpackDecoder? ==> s.peerDecoder)
    && (!u.kind.Control? ==> !u.fr.inFrame)
    && (u.kind.Control? && u.fr.inFrame && u.keep ==>
          Kept(u.fr.ty) && (u.fr.ty == SETTINGS <==> !s.peerSettings)
          && u.fr.len <= MAX_CONTROL_FRAME && |u.frame| + u.fr.remain == u.fr.len)
    && (u.kind.Control? && u.fr.inFrame && !u.keep ==> s.peerSettings)
    && (!s.peerControl ==> !s.peerSettings)
    && (!s.peerSettings ==> s.goaway.None? && s.maxPushId == 0)
  }

  lemma FrameEvolves(s: Session, ty: nat, data: ByteSeq)
    requires ty == SETTINGS <==> !s.peerSettings
    requires !s.peerSettings ==> s.goaway.None? && s.maxPushId == 0
    ensures var (t, err) := OnFrame(s, ty, data);
            && Evolves(s, t) && t.peerControl == s.peerControl && t.peerEncoder == s.peerEncoder
            && t.peerDecoder == s.peerDecoder
            && (!t.peerSettings ==> t.goaway.None? && t.maxPushId == 0)
            && (t.peerSettings ==> s.peerSettings || err == 0)
            && (s.peerSettings || err == 0 ==> t.peerSettings)
  {
    hide ReadSettings, OnlyVarint;
  }

  lemma StepEvolves(s: Session, u: Uni, src: ByteSeq)
    requires Consistent(s, u)
    ensures var a := Step(s, u, src);
            Evolves(s, a.s) && (!a.stop.Failed? ==> Consistent(a.s, a.u))
  {
    hide Varint.Decode, OnFrame, ReadHeader;
    match u.kind
    case Control =>
      if u.fr.inFrame && u.fr.remain == 0 && u.keep {
        FrameEvolves(s, u.fr.ty, u.frame);
      }
    case _ =>
  }

  /** Two different streams of one session: they cannot both be the control stream. */
  predicate Together(s: Session, u: Uni, v: Uni) {
    Consistent(s, u) && Consistent(s, v) && !(u.kind.Control? && v.kind.Control?)
  }

  lemma StepLeavesOthers(s: Session, u: Uni, v: Uni, src: ByteSeq)
    requires Together(s, u, v)
    ensures var a := Step(s, u, src);
            !a.stop.Failed? ==> Together(a.s, a.u, v)
  {
    hide Varint.Decode, OnFrame, ReadHeader;
    StepEvolves(s, u, src);
    match u.kind
    case Control =>
      if u.fr.inFrame && u.fr.remain == 0 && u.keep {
        FrameEvolves(s, u.fr.ty, u.frame);
      }
    case _ =>
  }

  lemma EvolvesOn(s: Session, t: Session, r: Session)
    requires Evolves(s, t) && Evolves(t, r)
    ensures Evolves(s, r)
  {
  }

  lemma {:induction false} DriveEvolves(s: Session, u: Uni, src: ByteSeq)
    requires Consistent(s, u)
    ensures var d := Drive(s, u, src);
            Evolves(s, d.s) && (d.err == 0 ==> Consistent(d.s, d.u))
    decreases |src|, u.fr.inFrame
  {
    hide Step, Consistent, Evolves;
    StepConsumes(s, u, src);
    StepEvolves(s, u, src);
    var a := Step(s, u, src);
    if a.stop == Go {
      DriveEvolves(a.s, a.u, a.rest);
      EvolvesOn(s, a.s, Drive(s, u, src).s);
    }
  }

  lemma {:induction false} DriveLeavesOthers(s: Session, u: Uni, v: Uni, src: ByteSeq)
    requires Together(s, u, v)
    ensures var d := Drive(s, u, src);
            d.err == 0 ==> Together(d.s, d.u, v)
    decreases |src|, u.fr.inFrame
  {
    hide Step, Together;
    StepConsumes(s, u, src);
    StepLeavesOthers(s, u, v, src);
    var a := Step(s, u, src);
    if a.stop == Go {
      DriveLeavesOthers(a.s, a.u, v, a.rest);
    }
  }

  // ----- All the peer's streams together

  /** A stream with the bytes of it not yet consumed. */
  datatype Stream = Stream(u: Uni, rest: ByteSeq)

  datatype Conn = Conn(s: Session, streams: map<nat, Stream>, err: nat)

  function Lookup(c: Conn, id: nat): Stream {
    if id in c.streams then c.streams[id] else Stream(UNI, [])
  }

  /** Bytes arrive on one of the peer's unidirectional streams. */
  function Receive(c: Conn, id: nat, data: ByteSeq): Conn {
    if c.err != 0 then c
    else
      var st := Lookup(c, id);
      var d := Drive(c.s, st.u, st.rest + data);
      Conn(d.s, c.streams[id := Stream(d.u, d.rest)], d.err)
  }

  function ReceiveAll(c: Conn, arrivals: seq<(nat, ByteSeq)>): Conn
    decreases |arrivals|
  {
    if arrivals == [] then c
    else ReceiveAll(Receive(c, arrivals[0].0, arrivals[0].1), arrivals[1..])
  }

  ghost predicate Inv(c: Conn) {
    c.err == 0 ==> forall i, j :: i != j ==> Together(c.s, Lookup(c, i).u, Lookup(c, j).u)
  }

  lemma ReceiveEvolves(c: Conn, id: nat, data: ByteSeq)
    requires Inv(c)
    ensures var e := Receive(c, id, data);
            Inv(e) && Evolves(c.s, e.s)
  {
    hide Drive, Consistent, Evolves;
    if c.err == 0 {
      var st := Lookup(c, id);
      var e := Receive(c, id, data);
      assert Together(c.s, st.u, Lookup(c, id + 1).u);
      DriveEvolves(c.s, st.u, st.rest + data);
      forall j: nat | j != id ensures e.err == 0 ==> Together(e.s, Lookup(e, id).u, Lookup(e, j).u) {
        assert Together(c.s, st.u, Lookup(c, j).u);
        DriveLeavesOthers(c.s, st.u, Lookup(c, j).u, st.rest + data);
      }
      forall i: nat, j: nat | i != j && i != id && j != id
        ensures e.err == 0 ==> Together(e.s, Lookup(e, i).u, Lookup(e, j).u)
      {
        assert Together(c.s, Lookup(c, i).u, Lookup(c, j).u);
        assert e.err == 0 ==> Together(e.s, Lookup(e, id).u, Lookup(e, i).u);
        assert e.err == 0 ==> Together(e.s, Lookup(e, id).u, Lookup(e, j).u);
      }
    } else {
      EvolvesSame(c.s);
    }
  }

  lemma EvolvesSame(s: Session)
    ensures Evolves(s, s)
  {
  }

  /** Whatever arrives, on whatever streams, in whatever pieces: the peer's settings are taken once,
      and before anything else; its GOAWAY id never rises and its push limit never falls; and a
      stream once gone away stays so. */
  lemma {:induction false} SaidStaysSaid(c: Conn, arrivals: seq<(nat, ByteSeq)>, streamId: nat)
    requires Inv(c)
    ensures var e := ReceiveAll(c, arrivals);
            && Inv(e) && Evolves(c.s, e.s)
            && (GoneAway(c.s, streamId) ==> GoneAway(e.s, streamId))
            && (e.err == 0 && !e.s.peerSettings ==> e.s.goaway.None? && e.s.maxPushId == 0)
    decreases |arrivals|
  {
    hide Receive, Inv;
    if arrivals != [] {
      ReceiveEvolves(c, arrivals[0].0, arrivals[0].1);
      var e := Receive(c, arrivals[0].0, arrivals[0].1);
      SaidStaysSaid(e, arrivals[1..], streamId);
      EvolvesOn(c.s, e.s, ReceiveAll(c, arrivals).s);
    } else {
      InvFirst(c);
    }
  }

  lemma InvFirst(c: Conn)
    requires Inv(c)
    ensures c.err == 0 && !c.s.peerSettings ==> c.s.goaway.None? && c.s.maxPushId == 0
  {
    if c.err == 0 {
      assert Together(c.s, Lookup(c, 0).u, Lookup(c, 1).u);
    }
  }

  lemma FreshInv(server: bool)
    ensures Inv(Conn(Start(server), map[], 0))
  {
  }

  /** And so from the start of every session. */
  lemma SaidFromTheStart(server: bool, arrivals: seq<(nat, ByteSeq)>, more: seq<(nat, ByteSeq)>, streamId: nat)
    ensures var c := ReceiveAll(Conn(Start(server), map[], 0), arrivals);
            var e := ReceiveAll(c, more);
            && Evolves(c.s, e.s)
            && (GoneAway(c.s, streamId) ==> GoneAway(e.s, streamId))
            && (e.err == 0 && !e.s.peerSettings ==> e.s.goaway.None? && e.s.maxPushId == 0)
  {
    hide ReceiveAll, Inv;
    FreshInv(server);
    var s := Conn(Start(server), map[], 0);
    SaidStaysSaid(s, arrivals, streamId);
    SaidStaysSaid(ReceiveAll(s, arrivals), more, streamId);
  }
}
