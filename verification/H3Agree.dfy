/** Two sessions wired together: what one side's control stream says is what the other records. */
module H3Agree {
  import opened Bytes
  import opened H3Frame
  import opened H3Session
  import Varint

  // ----- What a side sends

  function SettingBytes(id: nat, val: nat): ByteSeq
    requires id <= Varint.VARINT_MAX && val <= Varint.VARINT_MAX
  {
    Varint.Encode(id) + Varint.Encode(val)
  }

  predicate Sayable(t: Settings) {
    && t.maxFieldSectionSize <= Varint.VARINT_MAX && t.qpackMaxTableCapacity <= Varint.VARINT_MAX
    && t.qpackBlockedStreams <= Varint.VARINT_MAX
  }

  function SettingsPayload(t: Settings): ByteSeq
    requires Sayable(t)
  {
    SettingBytes(QPACK_MAX_TABLE_CAPACITY, t.qpackMaxTableCapacity)
    + (SettingBytes(QPACK_BLOCKED_STREAMS, t.qpackBlockedStreams)
       + SettingBytes(MAX_FIELD_SECTION_SIZE, t.maxFieldSectionSize))
  }

  /** What opens a control stream: its type, and SETTINGS. Nothing if a value is too large to say. */
  function Preamble(t: Settings): Option<ByteSeq> {
    if !Sayable(t) then None
    else
      SettingsSize(t);
      Some(Varint.Encode(STREAM_CONTROL) + FrameBytes(SETTINGS, SettingsPayload(t)))
  }

  /** A GOAWAY, refused if it would name more than one already sent. */
  function GoawayFrame(sent: Option<nat>, id: nat): Option<ByteSeq> {
    if (sent.Some? && id > sent.value) || id > Varint.VARINT_MAX then None
    else Some(FrameBytes(GOAWAY, Varint.Encode(id)))
  }

  /** The GOAWAYs of a run, if the sender accepted every one. */
  function Goaways(sent: Option<nat>, ids: seq<nat>): Option<ByteSeq>
    decreases |ids|
  {
    if ids == [] then Some([])
    else
      var first, rest := GoawayFrame(sent, ids[0]), Goaways(Some(ids[0]), ids[1..]);
      if first.Some? && rest.Some? then Some(first.value + rest.value) else None
  }

  // ----- What the other side makes of it

  /** Which GOAWAYs an endpoint lets itself send: any ids that have an encoding and never rise. */
  lemma {:induction false} GoawaysExactly(sent: Option<nat>, ids: seq<nat>)
    ensures Goaways(sent, ids).Some? <==>
            && (forall i :: 0 <= i < |ids| ==> ids[i] <= Varint.VARINT_MAX)
            && (forall i :: 0 < i < |ids| ==> ids[i] <= ids[i - 1])
            && (sent.Some? && ids != [] ==> ids[0] <= sent.value)
    decreases |ids|
  {
    hide Varint.Encode, FrameBytes;
    if ids != [] {
      var more := ids[1..];
      GoawaysExactly(Some(ids[0]), more);
      assert forall i :: 0 <= i < |more| ==> more[i] == ids[i + 1];
      assert forall i :: 0 < i < |ids| ==> ids[i] == more[i - 1];
    }
  }

  /** A control stream between two frames. */
  predicate Between(u: Uni) { u.kind.Control? && !u.fr.bad && !u.fr.inFrame }

  lemma Unfold(s: Session, u: Uni, src: ByteSeq)
    ensures var a := Step(s, u, src);
            Drive(s, u, src) == match a.stop
                                case Go => Drive(a.s, a.u, a.rest)
                                case Starved => Run(a.s, a.u, a.rest, 0)
                                case Failed(err) => Run(a.s, a.u, a.rest, err)
  {
    hide Step;
    StepConsumes(s, u, src);
  }

  lemma HeaderStep(s: Session, u: Uni, ty: nat, payload: ByteSeq, rest: ByteSeq)
    requires Between(u) && Kept(ty) && |payload| <= MAX_CONTROL_FRAME
    requires FrameAllowed(s, ty) == 0 && (s.peerSettings || ty == SETTINGS)
    ensures Step(s, u, FrameBytes(ty, payload) + rest)
            == Advance(s, Uni(Control, Frame(ty, |payload|, |payload|, true, false), [], true),
                       payload + rest, Go)
  {
    hide ReadHeader, FrameBytes;
    HeaderRoundTrip(ty, payload, rest);
  }

  lemma PayloadStep(s: Session, ty: nat, payload: ByteSeq, rest: ByteSeq)
    requires payload != []
    ensures Step(s, Uni(Control, Frame(ty, |payload|, |payload|, true, false), [], true), payload + rest)
            == Advance(s, Uni(Control, Frame(ty, |payload|, 0, true, false), payload, true), rest, Go)
  {
    assert (payload + rest)[..|payload|] == payload && (payload + rest)[|payload|..] == rest;
    assert [] + payload == payload;
  }

  function AfterFrame(ty: nat, payload: ByteSeq): Uni {
    Uni(Control, Frame(ty, |payload|, 0, false, false), payload, true)
  }

  /** A whole frame, read. */
  lemma FrameRead(s: Session, u: Uni, ty: nat, payload: ByteSeq, rest: ByteSeq)
    requires Between(u) && Kept(ty) && 0 < |payload| <= MAX_CONTROL_FRAME
    requires FrameAllowed(s, ty) == 0 && (s.peerSettings || ty == SETTINGS)
    ensures var (t, err) := OnFrame(s, ty, payload);
            Drive(s, u, FrameBytes(ty, payload) + rest)
            == if err == 0 then Drive(t, AfterFrame(ty, payload), rest)
               else Run(t, AfterFrame(ty, payload), rest, err)
  {
    hide Step, FrameBytes, OnFrame, Drive;
    Unfold(s, u, FrameBytes(ty, payload) + rest);
    HeaderStep(s, u, ty, payload, rest);
    var v := Uni(Control, Frame(ty, |payload|, |payload|, true, false), [], true);
    Unfold(s, v, payload + rest);
    PayloadStep(s, ty, payload, rest);
    var w := Uni(Control, Frame(ty, |payload|, 0, true, false), payload, true);
    Unfold(s, w, rest);
    CompleteStep(s, ty, payload, rest);
  }

  lemma CompleteStep(s: Session, ty: nat, payload: ByteSeq, rest: ByteSeq)
    ensures var (t, err) := OnFrame(s, ty, payload);
            Step(s, Uni(Control, Frame(ty, |payload|, 0, true, false), payload, true), rest)
            == Advance(t, AfterFrame(ty, payload), rest, StopOf(err))
  {
    hide OnFrame;
  }

  // ----- SETTINGS

  lemma SettingRead(t: Settings, seen: set<nat>, id: nat, val: nat, rest: ByteSeq)
    requires id <= Varint.VARINT_MAX && val <= Varint.VARINT_MAX && Acted(id) && id !in seen
    requires id != ENABLE_CONNECT_PROTOCOL
    ensures ReadSettings(t, SettingBytes(id, val) + rest, seen)
            == ReadSettings(ApplySetting(t, {}, id, val).0, rest, seen + {id})
  {
    hide Varint.Decode, Varint.Encode;
    var i, v := Varint.Encode(id), Varint.Encode(val);
    var data := SettingBytes(id, val) + rest;
    assert data == i + (v + rest);
    Varint.RoundTrip(id, v + rest);
    Varint.RoundTrip(val, rest);
    assert data[|i|..] == v + rest;
    assert data[|i| + |v|..] == rest;
  }

  lemma SettingsRead(t: Settings, s: Session)
    requires Sayable(t) && !s.peerSettings
    ensures OnSettings(s, SettingsPayload(t))
            == (s.(peerSettings := true,
                   peer := t.(enableConnectProtocol := s.peer.enableConnectProtocol)), 0)
    ensures 0 < |SettingsPayload(t)| <= MAX_CONTROL_FRAME
  {
    hide Varint.Decode, Varint.Encode, ReadSettings;
    var a := SettingBytes(QPACK_MAX_TABLE_CAPACITY, t.qpackMaxTableCapacity);
    var b := SettingBytes(QPACK_BLOCKED_STREAMS, t.qpackBlockedStreams);
    var c := SettingBytes(MAX_FIELD_SECTION_SIZE, t.maxFieldSectionSize);
    SettingRead(s.peer, {}, QPACK_MAX_TABLE_CAPACITY, t.qpackMaxTableCapacity, b + c);
    var p := s.peer.(qpackMaxTableCapacity := t.qpackMaxTableCapacity);
    SettingRead(p, {} + {QPACK_MAX_TABLE_CAPACITY}, QPACK_BLOCKED_STREAMS, t.qpackBlockedStreams, c);
    var q := p.(qpackBlockedStreams := t.qpackBlockedStreams);
    var seen := {} + {QPACK_MAX_TABLE_CAPACITY} + {QPACK_BLOCKED_STREAMS};
    SettingRead(q, seen, MAX_FIELD_SECTION_SIZE, t.maxFieldSectionSize, []);
    assert c + [] == c;
    NoMoreSettings(q.(maxFieldSectionSize := t.maxFieldSectionSize), seen + {MAX_FIELD_SECTION_SIZE});
    SettingsSize(t);
  }

  lemma NoMoreSettings(t: Settings, seen: set<nat>)
    ensures ReadSettings(t, [], seen) == (t, 0)
  {
  }

  lemma SettingsSize(t: Settings)
    requires Sayable(t)
    ensures 0 < |SettingsPayload(t)| <= 48
  {
    hide Varint.Encode;
  }

  // ----- GOAWAY

  /** The id a receiver ends up with, if nothing goes wrong. */
  function Latest(sent: Option<nat>, ids: seq<nat>): Option<nat> {
    if ids == [] then sent else Some(ids[|ids| - 1])
  }

  /** What a receiver asks of the ids: a server names request streams, a client push ids. */
  predicate Nameable(server: bool, ids: seq<nat>) {
    server || forall i :: 0 <= i < |ids| ==> ids[i] % 4 == 0
  }

  lemma GoawayPayload(s: Session, id: nat)
    requires id <= Varint.VARINT_MAX && (s.goaway.Some? ==> id <= s.goaway.value)
    ensures OnFrame(s, GOAWAY, Varint.Encode(id))
            == if s.server || id % 4 == 0 then (s.(goaway := Some(id)), 0) else (s, ID_ERROR)
  {
    hide Varint.Decode, Varint.Encode;
    Varint.RoundTrip(id, []);
    assert Varint.Encode(id) + [] == Varint.Encode(id);
  }

  lemma {:induction false} GoawaysRead(s: Session, u: Uni, ids: seq<nat>)
    requires Between(u) && s.peerSettings && Goaways(s.goaway, ids).Some?
    ensures var d := Drive(s, u, Goaways(s.goaway, ids).value);
            && (d.err == 0 <==> Nameable(s.server, ids))
            && (d.err == 0 ==> d.rest == [] && d.s == s.(goaway := Latest(s.goaway, ids)))
            && (d.err == 0 || d.err == ID_ERROR)
    decreases |ids|
  {
    hide Varint.Encode, Step, Drive, FrameBytes, OnFrame;
    if ids == [] {
      Unfold(s, u, []);
      NoFrame(s, u);
    } else {
      var id := ids[0];
      var payload := Varint.Encode(id);
      var more := Goaways(Some(id), ids[1..]).value;
      FrameRead(s, u, GOAWAY, payload, more);
      GoawayPayload(s, id);
      if s.server || id % 4 == 0 {
        var t := s.(goaway := Some(id));
        GoawaysRead(t, AfterFrame(GOAWAY, payload), ids[1..]);
        assert Nameable(s.server, ids) <==> Nameable(s.server, ids[1..]) by {
          assert forall i :: 0 < i < |ids| ==> ids[i] == ids[1..][i - 1];
          assert forall i :: 0 <= i < |ids| - 1 ==> ids[1..][i] == ids[i + 1];
        }
      }
    }
  }

  lemma NoFrame(s: Session, u: Uni)
    requires Between(u)
    ensures Step(s, u, []) == Advance(s, u, [], Starved)
  {
  }

  // ----- Agreement

  lemma TypeStep(s: Session, rest: ByteSeq)
    requires !s.peerControl
    ensures Step(s, UNI, Varint.Encode(STREAM_CONTROL) + rest)
            == Advance(s.(peerControl := true), UNI.(kind := Control), rest, Go)
  {
    hide Varint.Encode, Varint.Decode;
    Varint.RoundTrip(STREAM_CONTROL, rest);
    assert (Varint.Encode(STREAM_CONTROL) + rest)[Varint.Size(STREAM_CONTROL)..] == rest;
  }

  lemma PreambleRead(s: Session, t: Settings, rest: ByteSeq)
    requires !s.peerControl && !s.peerSettings && Sayable(t)
    ensures Drive(s, UNI, Preamble(t).value + rest)
            == Drive(s.(peerControl := true, peerSettings := true,
                        peer := t.(enableConnectProtocol := s.peer.enableConnectProtocol)),
                     AfterFrame(SETTINGS, SettingsPayload(t)), rest)
  {
    hide Varint.Encode, Step, Drive, FrameBytes, SettingsPayload, OnSettings;
    SettingsSize(t);
    var body := FrameBytes(SETTINGS, SettingsPayload(t)) + rest;
    var src := Preamble(t).value + rest;
    assert src == Varint.Encode(STREAM_CONTROL) + body;
    Unfold(s, UNI, src);
    TypeStep(s, body);
    var s1 := s.(peerControl := true);
    FrameRead(s1, UNI.(kind := Control), SETTINGS, SettingsPayload(t), rest);
    SettingsRead(t, s1);
  }

  /** One side sends its preamble and then any GOAWAYs it will let itself send; the bytes reach the
      other side in any fragments. The other side accepts them if and only if the ids are such as its
      peer may name, which the sender does not check, and then it has recorded exactly the settings
      sent and the last id sent. */
  lemma SessionsAgree(server: bool, local: Settings, ids: seq<nat>, chunks: seq<ByteSeq>)
    requires Sayable(local) && Goaways(None, ids).Some?
    requires Join(chunks) == Preamble(local).value + Goaways(None, ids).value
    ensures var d := Feed(Run(Start(server), UNI, [], 0), chunks);
            && (d.err == 0 <==> Nameable(server, ids))
            && (d.err == 0 ==> && d.rest == [] && d.s.peerSettings
                               && d.s.peer == local.(enableConnectProtocol := false)
                               && d.s.goaway == Latest(None, ids))
            && (d.err == 0 || d.err == ID_ERROR)
  {
    hide Varint.Encode, Drive, Preamble, Goaways, Feed, Join, SettingsPayload;
    var s := Start(server);
    FragmentationIndependence(s, chunks);
    PreambleRead(s, local, Goaways(None, ids).value);
    SettingsSize(local);
    GoawaysRead(s.(peerControl := true, peerSettings := true,
                   peer := local.(enableConnectProtocol := false)),
                AfterFrame(SETTINGS, SettingsPayload(local)), ids);
  }
}
