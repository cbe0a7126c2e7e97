/** All of a peer's unidirectional streams at once: when its connection goes on, and with what, said of
    the bytes each stream has carried (section 6.2 of RFC 9114). */
module H3Streams {
  import opened Bytes
  import opened H3Session
  import H3Agree
  import Varint

  type Arrivals = seq<(nat, ByteSeq)>

  /** Everything that has arrived on one stream. */
  function BytesOn(arr: Arrivals, id: nat): ByteSeq {
    if arr == [] then []
    else BytesOn(arr[..|arr| - 1], id) + if arr[|arr| - 1].0 == id then arr[|arr| - 1].1 else []
  }

  /** The type a stream begins with, once all of it is there, and what comes after. */
  function TypeOf(b: ByteSeq): Option<nat> {
    var v := Varint.Decode(b);
    if v.Some? then Some(v.value.0) else None
  }

  function Past(b: ByteSeq): ByteSeq {
    var v := Varint.Decode(b);
    if v.Some? then b[v.value.1..] else []
  }

  predicate Critical(ty: nat) { ty in {0x00, 0x02, 0x03} }

  /** What the control stream has said. */
  function ControlRun(server: bool, data: ByteSeq): Run {
    Drive(Start(server).(peerControl := true), UNI.(kind := Control), data)
  }

  predicate AllZeroCapacity(data: ByteSeq) { forall i :: 0 <= i < |data| ==> data[i] == 0x20 }

  /** The error that what one stream has carried calls for, whatever others do: a push stream always, a
      control stream for what it says, and an encoder stream for anything that is not a capacity of zero.
      A decoder stream, and one of a type nobody has named, may carry anything. */
  function StreamFault(server: bool, b: ByteSeq): nat {
    match TypeOf(b)
    case None => 0
    case Some(ty) =>
      if ty == 0x00 then ControlRun(server, Past(b)).err
      else if ty == 0x01 then (if server then 0x103 else 0x108)
      else if ty == 0x02 then (if AllZeroCapacity(Past(b)) then 0 else 0x201)
      else 0
  }

  ghost predicate Twice(arr: Arrivals, ty: nat) {
    exists i: nat, j: nat :: i != j && TypeOf(BytesOn(arr, i)) == Some(ty) && TypeOf(BytesOn(arr, j)) == Some(ty)
  }

  /** Nothing on any stream is at fault, and no critical stream has been opened twice. */
  ghost predicate Fine(server: bool, arr: Arrivals) {
    && (forall id: nat :: StreamFault(server, BytesOn(arr, id)) == 0)
    && !Twice(arr, 0x00) && !Twice(arr, 0x02) && !Twice(arr, 0x03)
  }

  // ----- One stream

  lemma {:induction false} EncoderReads(s: Session, u: Uni, data: ByteSeq)
    requires u.kind.QpackEncoder?
    ensures var d := Drive(s, u, data);
            && d.err == (if AllZeroCapacity(data) then 0 else 0x201)
            && (d.err == 0 ==> d == Run(s, u, [], 0))
  {
    H3Agree.Unfold(s, u, data);
    if data != [] && data[0] == 0x20 {
      EncoderReads(s, u, data[1..]);
      assert forall i :: 1 <= i < |data| ==> data[i] == data[1..][i - 1];
    }
  }

  lemma Discards(s: Session, u: Uni, data: ByteSeq)
    requires u.kind.QpackDecoder? || u.kind.Ignored?
    ensures Drive(s, u, data) == Run(s, u, [], 0)
  {
    H3Agree.Unfold(s, u, data);
    H3Agree.Unfold(s, u, []);
  }

  /** A session with another's record of which streams exist. */
  function Flagged(s: Session, t: Session): Session {
    s.(peerControl := t.peerControl, peerEncoder := t.peerEncoder, peerDecoder := t.peerDecoder)
  }

  lemma ControlStepFlagged(s: Session, u: Uni, src: ByteSeq, t: Session)
    requires u.kind.Control?
    ensures var a := Step(s, u, src);
            Step(Flagged(s, t), u, src) == a.(s := Flagged(a.s, t)) && a.u.kind.Control?
  {
    hide OnFrame, OnHeader, H3Frame.FrameStep;
    var (f, rest, r) := H3Frame.FrameStep(u.fr, src);
    HandlersFlagged(s, u.(fr := f), t);
  }

  lemma HandlersFlagged(s: Session, u: Uni, t: Session)
    ensures OnHeader(Flagged(s, t), u) == OnHeader(s, u) && OnHeader(s, u).0.kind == u.kind
    ensures var (v, err) := OnFrame(s, u.fr.ty, u.frame);
            OnFrame(Flagged(s, t), u.fr.ty, u.frame) == (Flagged(v, t), err)
  {
    hide OnFrame;
    FrameFlagged(s, u.fr.ty, u.frame, t);
  }

  lemma SettingsFlagged(s: Session, data: ByteSeq, t: Session)
    ensures var (v, err) := OnSettings(s, data); OnSettings(Flagged(s, t), data) == (Flagged(v, t), err)
  {
    hide ReadSettings;
  }

  lemma GoawayFlagged(s: Session, data: ByteSeq, t: Session)
    ensures var (v, err) := OnGoaway(s, data); OnGoaway(Flagged(s, t), data) == (Flagged(v, t), err)
  {
    hide OnlyVarint;
  }

  lemma PushFlagged(s: Session, data: ByteSeq, t: Session)
    ensures var (v, err) := OnMaxPushId(s, data); OnMaxPushId(Flagged(s, t), data) == (Flagged(v, t), err)
  {
    hide OnlyVarint;
  }

  lemma FrameFlagged(s: Session, ty: nat, data: ByteSeq, t: Session)
    ensures var (v, err) := OnFrame(s, ty, data);
            OnFrame(Flagged(s, t), ty, data) == (Flagged(v, t), err)
  {
    hide OnSettings, OnGoaway, OnMaxPushId;
    SettingsFlagged(s, data, t);
    GoawayFlagged(s, data, t);
    PushFlagged(s, data, t);
  }

  lemma {:induction false} ControlFlagged(s: Session, u: Uni, src: ByteSeq, t: Session)
    requires u.kind.Control?
    ensures var d := Drive(s, u, src); Drive(Flagged(s, t), u, src) == d.(s := Flagged(d.s, t))
    decreases |src|, u.fr.inFrame
  {
    hide Step, Flagged;
    StepConsumes(s, u, src);
    ControlStepFlagged(s, u, src, t);
    H3Agree.Unfold(s, u, src);
    H3Agree.Unfold(Flagged(s, t), u, src);
    var a := Step(s, u, src);
    if a.stop == Go {
      ControlFlagged(a.s, a.u, a.rest, t);
    }
  }

  /** A stream as it stands after what it has carried. */
  function StreamFor(server: bool, b: ByteSeq): Stream {
    match TypeOf(b)
    case None => Stream(UNI, b)
    case Some(ty) =>
      if ty == 0x00 then Stream(ControlRun(server, Past(b)).u, ControlRun(server, Past(b)).rest)
      else if ty == 0x02 then Stream(UNI.(kind := QpackEncoder), [])
      else if ty == 0x03 then Stream(UNI.(kind := QpackDecoder), [])
      else Stream(UNI.(kind := Ignored), [])
  }

  lemma TypeStays(b: ByteSeq, data: ByteSeq)
    requires TypeOf(b).Some?
    ensures TypeOf(b + data) == TypeOf(b) && Past(b + data) == Past(b) + data
  {
    Varint.DecodeExtends(b, data);
  }

  lemma {:induction false} ControlKind(s: Session, u: Uni, src: ByteSeq)
    requires u.kind.Control?
    ensures Drive(s, u, src).u.kind.Control?
    decreases |src|, u.fr.inFrame
  {
    hide Step;
    StepConsumes(s, u, src);
    ControlStepFlagged(s, u, src, s);
    H3Agree.Unfold(s, u, src);
    var a := Step(s, u, src);
    if a.stop == Go {
      ControlKind(a.s, a.u, a.rest);
    }
  }

  /** More of the control stream: as if all of it had come at once, whatever other streams have done. */
  lemma ControlGoesOn(server: bool, s: Session, was: ByteSeq, data: ByteSeq)
    requires var d := ControlRun(server, was); d.err == 0 && s == Flagged(d.s, s)
    ensures var d, e := ControlRun(server, was), ControlRun(server, was + data);
            Drive(s, d.u, d.rest + data) == e.(s := Flagged(e.s, s))
  {
    hide Drive;
    var s0, u0 := Start(server).(peerControl := true), UNI.(kind := Control);
    var d := ControlRun(server, was);
    DriveSplits(s0, u0, was, data);
    ControlKind(s0, u0, was);
    ControlFlagged(d.s, d.u, d.rest + data, s);
  }

  // ----- The session

  /** Whether a stream of this type has been opened. */
  ghost predicate Opened(arr: Arrivals, ty: nat) { exists id: nat :: TypeOf(BytesOn(arr, id)) == Some(ty) }

  /** The connection is what the streams have made of it. */
  ghost predicate Follows(c: Conn, server: bool, arr: Arrivals) {
    && c.err == 0 && (forall id: nat :: Lookup(c, id) == StreamFor(server, BytesOn(arr, id)))
    && c.s.peerControl == Opened(arr, 0x00) && c.s.peerEncoder == Opened(arr, 0x02)
    && c.s.peerDecoder == Opened(arr, 0x03)
    && (forall id: nat :: TypeOf(BytesOn(arr, id)) == Some(0x00) ==>
          c.s == Flagged(ControlRun(server, Past(BytesOn(arr, id))).s, c.s))
    && (!Opened(arr, 0x00) ==> c.s == Flagged(Start(server), c.s))
  }

  lemma BytesAfter(arr: Arrivals, x: (nat, ByteSeq), id: nat)
    ensures BytesOn(arr + [x], id) == BytesOn(arr, id) + if x.0 == id then x.1 else []
  {
    assert (arr + [x])[..|arr|] == arr;
  }

  /** Whether another stream of this type exists already. */
  ghost predicate Clashes(arr: Arrivals, id: nat, ty: nat) { Critical(ty) && Other(arr, id, ty) }

  ghost predicate Other(arr: Arrivals, id: nat, ty: nat) {
    exists j: nat :: j != id && TypeOf(BytesOn(arr, j)) == Some(ty)
  }

  /** The error that one more arrival calls for: what its stream now carries, or, if it is the type of the
      stream that is complete at last, that there is such a stream already. */
  ghost function NextFault(server: bool, arr: Arrivals, x: (nat, ByteSeq)): nat {
    var b := BytesOn(arr, x.0);
    var ty := TypeOf(b + x.1);
    if TypeOf(b).None? && ty.Some? && Clashes(arr, x.0, ty.value) then 0x103
    else StreamFault(server, b + x.1)
  }

  /** The run of one stream over one more arrival. */
  lemma NewlyTyped(c: Conn, server: bool, arr: Arrivals, x: (nat, ByteSeq), ty: nat)
    requires Follows(c, server, arr) && TypeOf(BytesOn(arr, x.0)).None? && TypeOf(BytesOn(arr, x.0) + x.1) == Some(ty)
    ensures var b := BytesOn(arr, x.0) + x.1;
            var (t, kind, err) := Classify(c.s, ty);
            var d := Drive(c.s, UNI, b);
            && (err != 0 ==> d.err == err)
            && (err == 0 ==> d == Drive(t, UNI.(kind := kind), Past(b)))
            && c.s.server == server
  {
    hide Drive, Varint.Decode, Lookup;
    var b := BytesOn(arr, x.0) + x.1;
    H3Agree.Unfold(c.s, UNI, b);
    ServerKept(c, server, arr);
  }

  lemma ServerKept(c: Conn, server: bool, arr: Arrivals)
    requires Follows(c, server, arr)
    ensures c.s.server == server
  {
    hide Drive, Lookup;
    if Opened(arr, 0x00) {
      var id :| TypeOf(BytesOn(arr, id)) == Some(0x00);
      ControlServer(server, Past(BytesOn(arr, id)));
    }
  }

  lemma ControlServer(server: bool, data: ByteSeq)
    ensures ControlRun(server, data).s.server == server
  {
    hide Drive;
    var s0, u0 := Start(server).(peerControl := true), UNI.(kind := Control);
    DriveEvolves(s0, u0, data);
  }

  /** What the stream comes to with one more arrival. */
  ghost predicate Comes(c: Conn, server: bool, arr: Arrivals, x: (nat, ByteSeq), d: Run) {
    var b := BytesOn(arr, x.0) + x.1;
    && d.err == NextFault(server, arr, x)
    && (d.err == 0 ==>
          && Stream(d.u, d.rest) == StreamFor(server, b)
          && d.s.peerControl == (c.s.peerControl || TypeOf(b) == Some(0x00))
          && d.s.peerEncoder == (c.s.peerEncoder || TypeOf(b) == Some(0x02))
          && d.s.peerDecoder == (c.s.peerDecoder || TypeOf(b) == Some(0x03))
          && (if TypeOf(b) == Some(0x00) then d.s == Flagged(ControlRun(server, Past(b)).s, d.s)
              else d.s == Flagged(c.s, d.s)))
  }

  lemma ClashIs(c: Conn, server: bool, arr: Arrivals, id: nat, ty: nat)
    requires Follows(c, server, arr) && TypeOf(BytesOn(arr, id)).None?
    ensures Clashes(arr, id, ty) <==>
            (ty == 0x00 && c.s.peerControl) || (ty == 0x02 && c.s.peerEncoder) || (ty == 0x03 && c.s.peerDecoder)
  {
    hide Drive, Lookup, StreamFor;
  }

  lemma FirstTyped(c: Conn, server: bool, arr: Arrivals, x: (nat, ByteSeq))
    requires Follows(c, server, arr) && TypeOf(BytesOn(arr, x.0)).None? && TypeOf(BytesOn(arr, x.0) + x.1).Some?
    ensures Comes(c, server, arr, x, Drive(c.s, UNI, BytesOn(arr, x.0) + x.1))
  {
    hide Drive, Varint.Decode, Lookup, Clashes, BytesOn, Follows, Opened, AllZeroCapacity, Past, TypeOf;
    var b := BytesOn(arr, x.0) + x.1;
    var ty := TypeOf(b).value;
    NewlyTyped(c, server, arr, x, ty);
    ClashIs(c, server, arr, x.0, ty);
    var (t, kind, err) := Classify(c.s, ty);
    if ty == 0x02 {
      EncoderReads(t, UNI.(kind := QpackEncoder), Past(b));
    } else if ty == 0x00 {
      if !c.s.peerControl {
        NotYetControl(c, server, arr);
        ControlFlagged(Start(server).(peerControl := true), UNI.(kind := Control), Past(b), t);
      }
    } else if err == 0 {
      Discards(t, UNI.(kind := kind), Past(b));
    }
  }

  lemma NotYetControl(c: Conn, server: bool, arr: Arrivals)
    requires Follows(c, server, arr) && !c.s.peerControl
    ensures c.s == Flagged(Start(server), c.s)
  {
  }

  lemma NotTyped(c: Conn, server: bool, arr: Arrivals, x: (nat, ByteSeq))
    requires Follows(c, server, arr) && TypeOf(BytesOn(arr, x.0) + x.1).None?
    ensures Comes(c, server, arr, x, Drive(c.s, UNI, BytesOn(arr, x.0) + x.1))
  {
    hide Drive, Lookup, Follows, BytesOn;
    var b := BytesOn(arr, x.0) + x.1;
    H3Agree.Unfold(c.s, UNI, b);
    if TypeOf(BytesOn(arr, x.0)).Some? {
      TypeStays(BytesOn(arr, x.0), x.1);
    }
  }

  lemma GoesOn(c: Conn, server: bool, arr: Arrivals, x: (nat, ByteSeq))
    requires Follows(c, server, arr) && TypeOf(BytesOn(arr, x.0)).Some? && StreamFault(server, BytesOn(arr, x.0)) == 0
    ensures var st := Lookup(c, x.0);
            Comes(c, server, arr, x, Drive(c.s, st.u, st.rest + x.1))
  {
    hide Drive, Varint.Decode, Clashes, BytesOn, Opened, Past, TypeOf, ControlRun, AllZeroCapacity, Lookup;
    var was := BytesOn(arr, x.0);
    var st := Lookup(c, x.0);
    assert st == StreamFor(server, was);
    TypeStays(was, x.1);
    var ty := TypeOf(was).value;
    assert Opened(arr, ty) by {
      OpenedBy(arr, x.0, ty);
    }
    if ty == 0x00 {
      ControlGoesOn(server, c.s, Past(was), x.1);
    } else if ty == 0x02 {
      EncoderReads(c.s, st.u, x.1);
      assert [] + x.1 == x.1;
      CapacityConcat(Past(was), x.1);
    } else {
      Discards(c.s, st.u, st.rest + x.1);
    }
  }

  lemma OpenedBy(arr: Arrivals, id: nat, ty: nat)
    requires TypeOf(BytesOn(arr, id)) == Some(ty)
    ensures Opened(arr, ty)
  {
  }

  lemma CapacityConcat(a: ByteSeq, b: ByteSeq)
    ensures AllZeroCapacity(a + b) <==> AllZeroCapacity(a) && AllZeroCapacity(b)
  {
    assert forall i :: 0 <= i < |a| ==> (a + b)[i] == a[i];
    assert forall i :: 0 <= i < |b| ==> (a + b)[|a| + i] == b[i];
  }

  /** One more arrival, while nothing has been at fault. */
  lemma OneMore(c: Conn, server: bool, arr: Arrivals, x: (nat, ByteSeq))
    requires Follows(c, server, arr) && Fine(server, arr)
    ensures var e := Receive(c, x.0, x.1);
            && e.err == NextFault(server, arr, x)
            && (e.err == 0 ==> Follows(e, server, arr + [x]))
  {
    hide Drive, Follows, BytesOn, StreamFault, NextFault, StreamFor, Twice;
    var was := BytesOn(arr, x.0);
    StreamIs(c, server, arr, x.0);
    if TypeOf(was).Some? {
      GoesOn(c, server, arr, x);
    } else if TypeOf(was + x.1).Some? {
      FirstTyped(c, server, arr, x);
    } else {
      NotTyped(c, server, arr, x);
    }
    var st := Lookup(c, x.0);
    var d := Drive(c.s, st.u, st.rest + x.1);
    if d.err == 0 {
      FollowsOn(c, server, arr, x, d);
    }
  }

  lemma StreamIs(c: Conn, server: bool, arr: Arrivals, id: nat)
    requires Follows(c, server, arr)
    ensures c.err == 0 && Lookup(c, id) == StreamFor(server, BytesOn(arr, id))
    ensures TypeOf(BytesOn(arr, id)).None? ==> Lookup(c, id) == Stream(UNI, BytesOn(arr, id))
  {
    hide Drive, Lookup;
  }

  lemma OpenedAfter(arr: Arrivals, x: (nat, ByteSeq), ty: nat)
    ensures Opened(arr + [x], ty) <==> Opened(arr, ty) || TypeOf(BytesOn(arr, x.0) + x.1) == Some(ty)
  {
    hide BytesOn, TypeOf;
    forall id: nat ensures BytesOn(arr + [x], id) == BytesOn(arr, id) + if x.0 == id then x.1 else [] {
      BytesAfter(arr, x, id);
    }
    forall id: nat ensures TypeOf(BytesOn(arr, id)) == Some(ty) ==> TypeOf(BytesOn(arr + [x], id)) == Some(ty) {
      if TypeOf(BytesOn(arr, id)).Some? {
        TypeStays(BytesOn(arr, id), if x.0 == id then x.1 else []);
      }
    }
    forall id: nat | id != x.0 ensures BytesOn(arr + [x], id) == BytesOn(arr, id) {
      assert BytesOn(arr, id) + [] == BytesOn(arr, id);
    }
    assert BytesOn(arr + [x], x.0) == BytesOn(arr, x.0) + x.1;
  }

  lemma FollowsOn(c: Conn, server: bool, arr: Arrivals, x: (nat, ByteSeq), d: Run)
    requires Follows(c, server, arr) && Comes(c, server, arr, x, d) && d.err == 0 && !Twice(arr, 0x00)
    ensures Follows(Conn(d.s, c.streams[x.0 := Stream(d.u, d.rest)], 0), server, arr + [x])
  {
    hide Drive, BytesOn, TypeOf, StreamFor, NextFault, ControlRun, Past, Opened, Twice;
    var e, all := Conn(d.s, c.streams[x.0 := Stream(d.u, d.rest)], 0), arr + [x];
    forall id: nat
      ensures BytesOn(all, id) == if x.0 == id then BytesOn(arr, id) + x.1 else BytesOn(arr, id)
    {
      BytesAfter(arr, x, id);
      assert BytesOn(arr, id) + [] == BytesOn(arr, id);
    }
    OpenedAfter(arr, x, 0x00);
    OpenedAfter(arr, x, 0x02);
    OpenedAfter(arr, x, 0x03);
    forall id: nat | TypeOf(BytesOn(all, id)) == Some(0x00)
      ensures e.s == Flagged(ControlRun(server, Past(BytesOn(all, id))).s, e.s)
    {
      if id != x.0 {
        NotBoth(c, server, arr, x, id);
      }
    }
  }

  /** If another stream is the control stream, this one is not. */
  lemma NotBoth(c: Conn, server: bool, arr: Arrivals, x: (nat, ByteSeq), id: nat)
    requires !Twice(arr, 0x00) && id != x.0 && TypeOf(BytesOn(arr, id)) == Some(0x00)
    requires NextFault(server, arr, x) == 0
    ensures TypeOf(BytesOn(arr, x.0) + x.1) != Some(0x00)
  {
    hide Drive, BytesOn, TypeOf;
    if TypeOf(BytesOn(arr, x.0)).Some? {
      TypeStays(BytesOn(arr, x.0), x.1);
    }
  }

  // ----- Every run

  lemma {:induction false} ReceiveLast(c: Conn, arr: Arrivals, x: (nat, ByteSeq))
    ensures ReceiveAll(c, arr + [x]) == Receive(ReceiveAll(c, arr), x.0, x.1)
    decreases |arr|
  {
    hide Receive;
    if arr == [] {
      assert arr + [x] == [x];
      assert |[x][1..]| == 0;
    } else {
      assert (arr + [x])[1..] == arr[1..] + [x];
      ReceiveLast(Receive(c, arr[0].0, arr[0].1), arr[1..], x);
    }
  }

  lemma FaultStays(server: bool, b: ByteSeq, data: ByteSeq)
    requires StreamFault(server, b) != 0
    ensures StreamFault(server, b + data) != 0
  {
    hide Drive, Varint.Decode;
    TypeStays(b, data);
    DriveSplits(Start(server).(peerControl := true), UNI.(kind := Control), Past(b), data);
    CapacityConcat(Past(b), data);
  }

  lemma TwiceStays(arr: Arrivals, x: (nat, ByteSeq), ty: nat)
    requires Twice(arr, ty)
    ensures Twice(arr + [x], ty)
  {
    hide BytesOn, TypeOf;
    var i: nat, j: nat :| i != j && TypeOf(BytesOn(arr, i)) == Some(ty) && TypeOf(BytesOn(arr, j)) == Some(ty);
    BytesAfter(arr, x, i);
    BytesAfter(arr, x, j);
    TypeStays(BytesOn(arr, i), if x.0 == i then x.1 else []);
    TypeStays(BytesOn(arr, j), if x.0 == j then x.1 else []);
  }

  /** Once at fault, always. */
  lemma UnfineStays(server: bool, arr: Arrivals, x: (nat, ByteSeq))
    requires !Fine(server, arr)
    ensures !Fine(server, arr + [x])
  {
    hide BytesOn, StreamFault, Twice;
    if id: nat :| StreamFault(server, BytesOn(arr, id)) != 0 {
      BytesAfter(arr, x, id);
      FaultStays(server, BytesOn(arr, id), if x.0 == id then x.1 else []);
    } else if Twice(arr, 0x00) {
      TwiceStays(arr, x, 0x00);
    } else if Twice(arr, 0x02) {
      TwiceStays(arr, x, 0x02);
    } else {
      TwiceStays(arr, x, 0x03);
    }
  }

  /** Who could be the second stream of a type: only the one on which something has arrived. */
  lemma TwiceMeans(arr: Arrivals, x: (nat, ByteSeq), ty: nat)
    requires !Twice(arr, ty)
    ensures Twice(arr + [x], ty) <==>
            && TypeOf(BytesOn(arr, x.0)).None? && TypeOf(BytesOn(arr, x.0) + x.1) == Some(ty)
            && Other(arr, x.0, ty)
  {
    hide BytesOn, TypeOf;
    var all := arr + [x];
    forall id: nat ensures BytesOn(all, id) == if x.0 == id then BytesOn(arr, id) + x.1 else BytesOn(arr, id) {
      BytesAfter(arr, x, id);
      assert BytesOn(arr, id) + [] == BytesOn(arr, id);
    }
    if TypeOf(BytesOn(arr, x.0)).Some? {
      TypeStays(BytesOn(arr, x.0), x.1);
    }
    if j: nat :| j != x.0 && TypeOf(BytesOn(arr, j)) == Some(ty) {
      assert TypeOf(BytesOn(all, j)) == Some(ty);
      assert TypeOf(BytesOn(all, x.0)) == TypeOf(BytesOn(arr, x.0) + x.1);
    }
    if Twice(all, ty) {
      var i: nat, j: nat :| i != j && TypeOf(BytesOn(all, i)) == Some(ty) && TypeOf(BytesOn(all, j)) == Some(ty);
      var k := if i == x.0 then j else i;
      assert k != x.0 && TypeOf(BytesOn(arr, k)) == Some(ty);
      assert Other(arr, x.0, ty);
    }
  }

  lemma FineAfter(server: bool, arr: Arrivals, x: (nat, ByteSeq))
    requires Fine(server, arr)
    ensures Fine(server, arr + [x]) <==> NextFault(server, arr, x) == 0
  {
    hide BytesOn, StreamFault, Twice, Other, TypeOf;
    var all := arr + [x];
    forall id: nat ensures BytesOn(all, id) == if x.0 == id then BytesOn(arr, id) + x.1 else BytesOn(arr, id) {
      BytesAfter(arr, x, id);
      assert BytesOn(arr, id) + [] == BytesOn(arr, id);
    }
    TwiceMeans(arr, x, 0x00);
    TwiceMeans(arr, x, 0x02);
    TwiceMeans(arr, x, 0x03);
    assert BytesOn(all, x.0) == BytesOn(arr, x.0) + x.1;
  }

  function Fresh(server: bool): Conn { Conn(Start(server), map[], 0) }

  lemma NothingYet(server: bool)
    ensures Follows(Fresh(server), server, []) && Fine(server, [])
  {
    assert Varint.Decode([]).None?;
  }

  lemma {:induction false} RunFollows(server: bool, arr: Arrivals)
    ensures var c := ReceiveAll(Fresh(server), arr);
            (c.err == 0 <==> Fine(server, arr)) && (c.err == 0 ==> Follows(c, server, arr))
    decreases |arr|
  {
    hide Receive, Follows, Fine, NextFault;
    if arr == [] {
      NothingYet(server);
    } else {
      var n := |arr| - 1;
      var pre, x := arr[..n], arr[n];
      assert arr == pre + [x];
      RunFollows(server, pre);
      var c := ReceiveAll(Fresh(server), pre);
      ReceiveLast(Fresh(server), pre, x);
      if c.err == 0 {
        OneMore(c, server, pre, x);
        FineAfter(server, pre, x);
      } else {
        UnfineStays(server, pre, x);
        NothingMore(c, x);
      }
    }
  }

  lemma NothingMore(c: Conn, x: (nat, ByteSeq))
    requires c.err != 0
    ensures Receive(c, x.0, x.1) == c
  {
  }

  /** Whatever a peer sends on its unidirectional streams, however it is cut and interleaved: the
      connection goes on if and only if no stream carries what it may not and no critical stream is opened
      twice; while it does, each stream and the session stand where what has been carried puts them; and
      it ends with the error the first offending arrival calls for. */
  lemma StreamsExactly(server: bool, arr: Arrivals, x: (nat, ByteSeq))
    ensures var c := ReceiveAll(Fresh(server), arr);
            && (c.err == 0 <==> Fine(server, arr))
            && (Fine(server, arr) ==>
                  Follows(c, server, arr) && ReceiveAll(Fresh(server), arr + [x]).err == NextFault(server, arr, x))
  {
    hide Receive, Follows, Fine, NextFault;
    RunFollows(server, arr);
    ReceiveLast(Fresh(server), arr, x);
    if Fine(server, arr) {
      OneMore(ReceiveAll(Fresh(server), arr), server, arr, x);
    }
  }
}
