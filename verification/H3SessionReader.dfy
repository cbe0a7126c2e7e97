/** The session as it runs: fields updated in place as the peer's streams are read. */
module H3SessionReader {
  import opened Bytes
  import opened BufRing
  import opened H3Frame
  import opened H3Session
  import Cursor
  import Varint

  class PeerSession {
    const server: bool
    var peer: Settings
    var peerSettings: bool
    var peerControl: bool
    var peerEncoder: bool
    var peerDecoder: bool
    var goaway: Option<nat>
    var maxPushId: nat

    ghost function View(): Session
      reads this
    {
      Session(server, peer, peerSettings, peerControl, peerEncoder, peerDecoder, goaway, maxPushId)
    }

    constructor (isServer: bool)
      ensures View() == Start(isServer)
    {
      server := isServer;
      peer := Settings(U64 - 1, 0, 0, false);
      peerSettings, peerControl, peerEncoder, peerDecoder := false, false, false, false;
      goaway, maxPushId := None, 0;
    }

    method ParseSettings(data: ByteSeq) returns (err: nat)
      modifies this`peer, this`peerSettings
      ensures (View(), err) == OnSettings(old(View()), data)
    {
      hide Varint.Decode;
      var rd := new Cursor.Reader(data);
      var seen: set<nat> := {};
      while rd.Left() > 0
        invariant rd.Valid() && !rd.bad && fresh(rd)
        invariant ReadSettings(old(peer), data, {}) == ReadSettings(peer, rd.Rest(), seen)
        modifies rd, this`peer
        decreases |rd.Rest()|
      {
        ghost var rest := rd.Rest();
        var id := rd.GetVarint();
        var val := rd.GetVarint();
        if rd.bad {
          return FRAME_ERROR;
        }
        ghost var n := Varint.Decode(rest).value.1;
        assert rest[n..][Varint.Decode(rest[n..]).value.1..] == rest[n + Varint.Decode(rest[n..]).value.1..];
        var (u, e) := ApplySetting(peer, seen, id, val);
        peer := u;
        if e != 0 {
          return e;
        }
        seen := seen + {id};
      }
      peerSettings := true;
      return 0;
    }

    method TakeOnlyVarint(data: ByteSeq) returns (v: Option<nat>)
      ensures v == OnlyVarint(data)
    {
      hide Varint.Decode;
      var rd := new Cursor.Reader(data);
      var id := rd.GetVarint();
      if rd.bad || rd.Left() != 0 {
        return None;
      }
      return Some(id);
    }

    method ParseGoaway(data: ByteSeq) returns (err: nat)
      modifies this`goaway
      ensures (View(), err) == OnGoaway(old(View()), data)
    {
      hide OnlyVarint;
      var id := TakeOnlyVarint(data);
      if id.None? {
        return FRAME_ERROR;
      }
      if !server && id.value % 4 != 0 {
        return ID_ERROR;
      }
      if goaway.Some? && id.value > goaway.value {
        return ID_ERROR;
      }
      goaway := id;
      return 0;
    }

    method ControlFrame(ty: nat, data: ByteSeq) returns (err: nat)
      modifies this
      ensures (View(), err) == OnFrame(old(View()), ty, data)
    {
      hide OnSettings, OnGoaway, OnlyVarint;
      if ty == SETTINGS {
        err := ParseSettings(data);
      } else if ty == GOAWAY {
        err := ParseGoaway(data);
      } else if ty == MAX_PUSH_ID {
        var id := TakeOnlyVarint(data);
        if id.None? {
          return FRAME_ERROR;
        }
        if maxPushId > 0 && id.value + 1 < maxPushId {
          return ID_ERROR;
        }
        maxPushId := id.value + 1;
        return 0;
      } else {
        return 0;
      }
    }

    method ClassifyUni(ty: nat) returns (kind: Kind, err: nat)
      modifies this`peerControl, this`peerEncoder, this`peerDecoder
      ensures (View(), kind, err) == Classify(old(View()), ty)
    {
      if ty == STREAM_CONTROL {
        if peerControl {
          return Unknown, STREAM_CREATION_ERROR;
        }
        peerControl := true;
        return Control, 0;
      }
      if ty == STREAM_PUSH {
        return Unknown, if server then STREAM_CREATION_ERROR else ID_ERROR;
      }
      if ty == STREAM_QPACK_ENCODER {
        if peerEncoder {
          return Unknown, STREAM_CREATION_ERROR;
        }
        peerEncoder := true;
        return QpackEncoder, 0;
      }
      if ty == STREAM_QPACK_DECODER {
        if peerDecoder {
          return Unknown, STREAM_CREATION_ERROR;
        }
        peerDecoder := true;
        return QpackDecoder, 0;
      }
      return Ignored, 0;
    }
  }

  class UniStream {
    const input: Ring
    const fr: Reader
    var kind: Kind
    var frame: ByteSeq
    var frameKeep: bool

    ghost function View(): Uni
      reads this, fr
    {
      Uni(kind, fr.View(), frame, frameKeep)
    }

    constructor ()
      ensures View() == UNI && input.data == [] && fresh(input) && fresh(fr)
    {
      input := new Ring([]);
      fr := new Reader();
      kind, frame, frameKeep := Unknown, [], false;
    }

    /** A control frame's header has arrived. */
    method BeginFrame(s: PeerSession) returns (err: nat)
      modifies this`frame, this`frameKeep
      ensures (View(), err) == OnHeader(s.View(), old(View()))
    {
      if !s.peerSettings && fr.ty != SETTINGS {
        return MISSING_SETTINGS;
      }
      err := FrameAllowed(Session(s.server, s.peer, s.peerSettings, s.peerControl, s.peerEncoder,
                                  s.peerDecoder, s.goaway, s.maxPushId), fr.ty);
      if err != 0 {
        return;
      }
      frame, frameKeep := [], Kept(fr.ty);
      if frameKeep && fr.len > MAX_CONTROL_FRAME {
        return EXCESSIVE_LOAD;
      }
      return 0;
    }

    /** Reads control frames until there is nothing left to read, or one is refused. */
    method RunControl(s: PeerSession) returns (err: nat)
      requires kind.Control?
      modifies this, fr, input, s
      ensures Run(s.View(), View(), input.data, err) == Drive(old(s.View()), old(View()), old(input.data))
    {
      hide OnFrame, OnHeader, ReadHeader;
      ghost var goal := Drive(s.View(), View(), input.data);
      while true
        invariant kind.Control? && goal == Drive(s.View(), View(), input.data)
        decreases |input.data|, fr.inFrame
      {
        StepConsumes(s.View(), View(), input.data);
        var r := fr.Step(input);
        match r
        case NeedMore => return 0;
        case Poisoned => return GENERAL_PROTOCOL_ERROR;
        case Header =>
          err := BeginFrame(s);
          if err != 0 {
            return;
          }
        case Payload(n) =>
          if frameKeep {
            var got := input.Read(fr.avail);
            frame := frame + got;
          } else {
            input.Skip(fr.avail);
          }
        case Complete =>
          if frameKeep {
            err := s.ControlFrame(fr.ty, frame);
            if err != 0 {
              return;
            }
          }
      }
    }

    method RunQpackEncoder(s: PeerSession) returns (err: nat)
      requires kind.QpackEncoder?
      modifies input
      ensures Run(s.View(), View(), input.data, err) == Drive(s.View(), View(), old(input.data))
    {
      ghost var goal := Drive(s.View(), View(), input.data);
      while |input.data| > 0
        invariant goal == Drive(s.View(), View(), input.data)
        decreases |input.data|
      {
        if input.data[0] != 0x20 {
          return QPACK_ENCODER_STREAM_ERROR;
        }
        input.Skip(1);
      }
      return 0;
    }

    /** Bytes have arrived. */
    method UniRecv(s: PeerSession, data: ByteSeq) returns (err: nat)
      modifies this, fr, input, s
      ensures Run(s.View(), View(), input.data, err)
              == Drive(old(s.View()), old(View()), old(input.data) + data)
    {
      hide Varint.Decode, StepControl;
      input.data := input.data + data;
      if kind.Unknown? {
        var n, ty := input.PeekVarint(0);
        assert input.data[0..] == input.data;
        if n == 0 {
          return 0;
        }
        input.Skip(n);
        kind, err := s.ClassifyUni(ty);
        if err != 0 {
          return;
        }
      }
      if kind.Control? {
        err := RunControl(s);
      } else if kind.QpackEncoder? {
        err := RunQpackEncoder(s);
      } else {
        Discarded(s.View(), View(), input.data);
        input.Skip(|input.data|);
        return 0;
      }
    }
  }

  lemma Discarded(s: Session, u: Uni, src: ByteSeq)
    requires u.kind.QpackDecoder? || u.kind.Ignored?
    ensures Drive(s, u, src) == Run(s, u, [], 0)
  {
  }
}
