/** What the peer's control stream may carry, and what is recorded of it: said of its frames, whatever
    their types (sections 6.2.1, 7.2 and 9 of RFC 9114). */
module H3Control {
  import opened Bytes
  import opened H3Frame
  import opened H3Session
  import opened H3Agree
  import A = H3Accept
  import Varint

  type Sent = A.Sent

  // ----- Settings

  /** The complete pairs of a SETTINGS payload, and whether they are all of it. */
  function Pairs(data: ByteSeq): (seq<(nat, nat)>, bool)
    decreases |data|
  {
    if data == [] then ([], true)
    else
      var id := Varint.Decode(data);
      if id.None? then ([], false)
      else
        var val := Varint.Decode(data[id.value.1..]);
        if val.None? then ([], false)
        else
          var (ps, whole) := Pairs(data[id.value.1 + val.value.1..]);
          ([(id.value.0, val.value.0)] + ps, whole)
  }

  predicate Reserved(id: nat) { id in {0x02, 0x03, 0x04, 0x05} }

  predicate Known(id: nat) { id in {0x01, 0x06, 0x07, 0x08} }

  predicate Says(ps: seq<(nat, nat)>, id: nat) { exists i :: 0 <= i < |ps| && ps[i].0 == id }

  /** A pair that may not come after others: a reserved one, one whose value is out of bounds, or a known
      one that has come before. */
  predicate BadPair(pre: seq<(nat, nat)>, p: (nat, nat)) {
    Reserved(p.0) || (p.0 == 0x08 && p.1 > 1) || (Known(p.0) && Says(pre, p.0))
  }

  predicate GoodPairs(ps: seq<(nat, nat)>) { forall n :: 0 <= n < |ps| ==> !BadPair(ps[..n], ps[n]) }

  function SettingsFault(data: ByteSeq): nat {
    var (ps, whole) := Pairs(data);
    if !GoodPairs(ps) then 0x109 else if !whole then 0x106 else 0
  }

  /** What was said of a setting, or what holds if nothing was. */
  function Value(ps: seq<(nat, nat)>, id: nat, otherwise: nat): nat {
    if ps == [] then otherwise
    else if ps[|ps| - 1].0 == id then ps[|ps| - 1].1 else Value(ps[..|ps| - 1], id, otherwise)
  }

  function Stated(ps: seq<(nat, nat)>, t: Settings): Settings {
    Settings(Value(ps, 0x06, t.maxFieldSectionSize), Value(ps, 0x01, t.qpackMaxTableCapacity),
             Value(ps, 0x07, t.qpackBlockedStreams),
             Value(ps, 0x08, if t.enableConnectProtocol then 1 else 0) != 0)
  }

  ghost predicate Seen(seen: set<nat>, pre: seq<(nat, nat)>) {
    forall id :: Known(id) ==> (id in seen <==> Says(pre, id))
  }

  lemma OnePair(pre: seq<(nat, nat)>, p: (nat, nat), id: nat, otherwise: nat)
    ensures Says(pre + [p], id) <==> Says(pre, id) || p.0 == id
    ensures Value(pre + [p], id, otherwise) == if p.0 == id then p.1 else Value(pre, id, otherwise)
    ensures GoodPairs(pre + [p]) <==> GoodPairs(pre) && !BadPair(pre, p)
  {
    hide BadPair;
    var all, n := pre + [p], |pre|;
    assert all[..n] == pre && all[n] == p && forall i :: 0 <= i < n ==> all[i] == pre[i] && all[..i] == pre[..i];
  }

  lemma PairTaken(t: Settings, pre: seq<(nat, nat)>, seen: set<nat>, p: (nat, nat), t0: Settings)
    requires t == Stated(pre, t0) && Seen(seen, pre)
    ensures var (u, err) := ApplySetting(t, seen, p.0, p.1);
            && (err != 0 <==> BadPair(pre, p)) && (err != 0 ==> err == 0x109)
            && (err == 0 ==> u == Stated(pre + [p], t0) && Seen(seen + {p.0}, pre + [p]))
  {
    hide Says, Value, GoodPairs;
    OnePair(pre, p, 0x01, t0.qpackMaxTableCapacity);
    OnePair(pre, p, 0x06, t0.maxFieldSectionSize);
    OnePair(pre, p, 0x07, t0.qpackBlockedStreams);
    OnePair(pre, p, 0x08, if t0.enableConnectProtocol then 1 else 0);
  }

  lemma {:induction false} SettingsTaken(t: Settings, data: ByteSeq, seen: set<nat>, pre: seq<(nat, nat)>, t0: Settings)
    requires t == Stated(pre, t0) && Seen(seen, pre) && GoodPairs(pre)
    ensures var (ps, whole) := Pairs(data);
            var (u, err) := ReadSettings(t, data, seen);
            && (err == 0x109 <==> !GoodPairs(pre + ps)) && (err == 0x106 <==> GoodPairs(pre + ps) && !whole)
            && (err == 0 <==> GoodPairs(pre + ps) && whole)
            && (err == 0 ==> u == Stated(pre + ps, t0))
    decreases |data|
  {
    hide Varint.Decode, Stated, GoodPairs, Seen, BadPair, ApplySetting;
    var (ps, whole) := Pairs(data);
    if data == [] || Varint.Decode(data).None? || Varint.Decode(data[Varint.Decode(data).value.1..]).None? {
      assert pre + ps == pre;
    } else {
      var id := Varint.Decode(data).value;
      var val := Varint.Decode(data[id.1..]).value;
      var p := (id.0, val.0);
      var rest := data[id.1 + val.1..];
      PairTaken(t, pre, seen, p, t0);
      OnePair(pre, p, 0, 0);
      var more := Pairs(rest).0;
      assert pre + ps == pre + [p] + more;
      var (u, err) := ApplySetting(t, seen, p.0, p.1);
      if err == 0 {
        SettingsTaken(u, rest, seen + {p.0}, pre + [p], t0);
      } else {
        BadStays(pre + [p], more);
      }
    }
  }

  lemma BadStays(a: seq<(nat, nat)>, b: seq<(nat, nat)>)
    requires !GoodPairs(a)
    ensures !GoodPairs(a + b)
  {
    hide BadPair;
    var n :| 0 <= n < |a| && BadPair(a[..n], a[n]);
    assert (a + b)[..n] == a[..n] && (a + b)[n] == a[n];
  }

  /** A SETTINGS payload is taken if and only if it is whole pairs, none of them reserved, out of bounds
      or, if known, repeated; and then what is recorded is what it says. */
  lemma SettingsExactly(s: Session, data: ByteSeq)
    requires !s.peerSettings
    ensures var (t, err) := OnSettings(s, data);
            && err == SettingsFault(data)
            && (err == 0 ==> t == s.(peer := Stated(Pairs(data).0, s.peer), peerSettings := true))
  {
    hide ReadSettings, Pairs;
    assert [] + Pairs(data).0 == Pairs(data).0;
    assert Stated([], s.peer) == s.peer;
    SettingsTaken(s.peer, data, {}, [], s.peer);
  }

  // ----- The frames

  /** The ids that frames of a type have named, in order. */
  function Ids(fs: seq<Sent>, ty: nat): seq<nat> {
    if fs == [] then []
    else
      var f := fs[|fs| - 1];
      Ids(fs[..|fs| - 1], ty) + if f.ty == ty && OnlyVarint(f.payload).Some? then [OnlyVarint(f.payload).value] else []
  }

  predicate Rises(ids: seq<nat>, id: nat) { exists i :: 0 <= i < |ids| && id > ids[i] }

  predicate Falls(ids: seq<nat>, id: nat) { exists i :: 0 <= i < |ids| && id < ids[i] }

  /** The error a control frame calls for after others, zero being none. SETTINGS comes first and once;
      GOAWAY ids never rise and push ids never fall; types that nobody has named are ignored. */
  function Fault(server: bool, pre: seq<Sent>, f: Sent): nat {
    if pre == [] && f.ty != 0x04 then 0x10a
    else if pre != [] && f.ty == 0x04 then 0x105
    else if f.ty in {0x00, 0x01, 0x02, 0x05, 0x06, 0x08, 0x09} then 0x105
    else if f.ty == 0x03 then 0x108
    else if f.ty == 0x0d && !server then 0x105
    else if f.ty in {0x04, 0x07, 0x0d} && |f.payload| > 16384 then 0x107
    else if f.ty == 0x04 then SettingsFault(f.payload)
    else if f.ty == 0x07 || f.ty == 0x0d then
      var id := OnlyVarint(f.payload);
      if id.None? then 0x106
      else if f.ty == 0x07 && !server && id.value % 4 != 0 then 0x108
      else if f.ty == 0x07 && Rises(Ids(pre, 0x07), id.value) then 0x108
      else if f.ty == 0x0d && Falls(Ids(pre, 0x0d), id.value) then 0x108
      else 0
    else 0
  }

  predicate Accepts(server: bool, fs: seq<Sent>) { forall n :: 0 <= n < |fs| ==> Fault(server, fs[..n], fs[n]) == 0 }

  lemma OneMore(server: bool, pre: seq<Sent>, f: Sent, ty: nat)
    ensures Ids(pre + [f], ty)
            == Ids(pre, ty) + if f.ty == ty && OnlyVarint(f.payload).Some? then [OnlyVarint(f.payload).value] else []
    ensures Accepts(server, pre + [f]) <==> Accepts(server, pre) && Fault(server, pre, f) == 0
  {
    hide Fault, OnlyVarint;
    var all, n := pre + [f], |pre|;
    assert all[..n] == pre && all[n] == f;
    assert forall i :: 0 <= i < n ==> all[..i] == pre[..i] && all[i] == pre[i];
  }

  function LastOf(ids: seq<nat>): Option<nat> { if ids == [] then None else Some(ids[|ids| - 1]) }

  function PushLimit(ids: seq<nat>): nat { if ids == [] then 0 else ids[|ids| - 1] + 1 }

  /** What has been recorded is what the frames said. */
  ghost predicate Remembers(s: Session, u: Uni, pre: seq<Sent>) {
    && Between(u) && s.peerSettings == (pre != [])
    && s.goaway == LastOf(Ids(pre, 0x07)) && s.maxPushId == PushLimit(Ids(pre, 0x0d))
    && (forall i :: 0 <= i < |Ids(pre, 0x07)| ==> Ids(pre, 0x07)[i] >= s.goaway.value)
    && (forall i :: 0 <= i < |Ids(pre, 0x0d)| ==> Ids(pre, 0x0d)[i] < s.maxPushId)
  }

  /** The faults a header shows. */
  function HeaderFault(s: Session, f: Sent): nat {
    if !s.peerSettings && f.ty != SETTINGS then MISSING_SETTINGS
    else if FrameAllowed(s, f.ty) != 0 then FrameAllowed(s, f.ty)
    else if Kept(f.ty) && |f.payload| > MAX_CONTROL_FRAME then EXCESSIVE_LOAD else 0
  }

  function Opened(u: Uni, f: Sent): Uni {
    Uni(Control, Frame(f.ty, |f.payload|, |f.payload|, true, false), [], Kept(f.ty))
  }

  lemma HeaderRead(s: Session, u: Uni, f: Sent, rest: ByteSeq)
    requires Between(u) && A.Writable(f)
    ensures var d := Drive(s, u, FrameBytes(f.ty, f.payload) + rest);
            if HeaderFault(s, f) != 0 then d.err == HeaderFault(s, f)
            else d == Drive(s, Opened(u, f), f.payload + rest)
  {
    hide Drive, FrameBytes, ReadHeader;
    HeaderRoundTrip(f.ty, f.payload, rest);
    Unfold(s, u, FrameBytes(f.ty, f.payload) + rest);
  }

  function Closed(u: Uni, f: Sent): Uni {
    Uni(Control, Frame(f.ty, |f.payload|, 0, false, false), if Kept(f.ty) then f.payload else [], Kept(f.ty))
  }

  lemma PayloadPast(s: Session, u: Uni, f: Sent, rest: ByteSeq)
    requires Between(u)
    ensures var (t, err) := if Kept(f.ty) then OnFrame(s, f.ty, f.payload) else (s, 0);
            var d := Drive(s, Opened(u, f), f.payload + rest);
            if err != 0 then d.err == err else d == Drive(t, Closed(u, f), rest)
  {
    hide Drive, OnFrame;
    var v := Opened(u, f);
    if f.payload != [] {
      assert (f.payload + rest)[..|f.payload|] == f.payload && (f.payload + rest)[|f.payload|..] == rest;
      assert [] + f.payload == f.payload;
      Unfold(s, v, f.payload + rest);
    } else {
      assert f.payload + rest == rest;
    }
    var w := v.(fr := v.fr.(remain := 0), frame := if v.keep then f.payload else []);
    Unfold(s, w, rest);
  }

  /** One frame: the error it calls for, or what it leaves recorded. */
  lemma FrameRead(s: Session, u: Uni, pre: seq<Sent>, f: Sent, rest: ByteSeq) returns (t: Session)
    requires Remembers(s, u, pre) && A.Writable(f)
    ensures var d := Drive(s, u, FrameBytes(f.ty, f.payload) + rest);
            if Fault(s.server, pre, f) != 0 then d.err == Fault(s.server, pre, f)
            else d == Drive(t, Closed(u, f), rest) && Remembers(t, Closed(u, f), pre + [f])
    ensures Fault(s.server, pre, f) == 0 ==>
              && t.server == s.server && t.peerControl == s.peerControl && t.peerEncoder == s.peerEncoder
              && t.peerDecoder == s.peerDecoder
              && t.peer == if f.ty == 0x04 then Stated(Pairs(f.payload).0, s.peer) else s.peer
  {
    hide Drive, FrameBytes, Remembers, Fault, HeaderFault, OnFrame;
    FaultIs(s, u, pre, f);
    IsBetween(s, u, pre);
    HeaderRead(s, u, f, rest);
    PayloadPast(s, u, f, rest);
    t := Outcome(s, f).0;
    if Fault(s.server, pre, f) == 0 {
      Recorded(s, u, pre, f);
    }
  }

  lemma IsBetween(s: Session, u: Uni, pre: seq<Sent>)
    requires Remembers(s, u, pre)
    ensures Between(u)
  {
  }

  /** What a frame makes of the session. */
  function Outcome(s: Session, f: Sent): (Session, nat) { if Kept(f.ty) then OnFrame(s, f.ty, f.payload) else (s, 0) }

  lemma FaultIs(s: Session, u: Uni, pre: seq<Sent>, f: Sent)
    requires Remembers(s, u, pre)
    ensures Fault(s.server, pre, f) == if HeaderFault(s, f) != 0 then HeaderFault(s, f) else Outcome(s, f).1
  {
    hide Ids, OnlyVarint, SettingsFault, Stated, Pairs, Rises, Falls, OnSettings;
    if f.ty == 0x04 && pre == [] {
      SettingsExactly(s, f.payload);
    }
    if OnlyVarint(f.payload).Some? {
      IdFault(s, u, pre, OnlyVarint(f.payload).value);
    }
  }

  lemma Recorded(s: Session, u: Uni, pre: seq<Sent>, f: Sent)
    requires Remembers(s, u, pre) && HeaderFault(s, f) == 0 && Outcome(s, f).1 == 0
    ensures var t := Outcome(s, f).0;
            && Remembers(t, Closed(u, f), pre + [f])
            && t.server == s.server && t.peerControl == s.peerControl && t.peerEncoder == s.peerEncoder
            && t.peerDecoder == s.peerDecoder
            && t.peer == if f.ty == 0x04 then Stated(Pairs(f.payload).0, s.peer) else s.peer
  {
    hide Ids, OnlyVarint, SettingsFault, Stated, Pairs, OnSettings;
    OneMore(s.server, pre, f, 0x07);
    OneMore(s.server, pre, f, 0x0d);
    if f.ty == 0x04 {
      SettingsExactly(s, f.payload);
    }
  }

  /** The comparison with what was last recorded is one with all that came before. */
  lemma IdFault(s: Session, u: Uni, pre: seq<Sent>, id: nat)
    requires Remembers(s, u, pre)
    ensures Rises(Ids(pre, 0x07), id) <==> s.goaway.Some? && id > s.goaway.value
    ensures Falls(Ids(pre, 0x0d), id) <==> s.maxPushId > 0 && id + 1 < s.maxPushId
  {
    hide Ids;
    var g, p := Ids(pre, 0x07), Ids(pre, 0x0d);
    if s.goaway.Some? && id > s.goaway.value {
      assert id > g[|g| - 1];
    }
    if s.maxPushId > 0 && id + 1 < s.maxPushId {
      assert id < p[|p| - 1];
    }
  }

  // ----- All of them

  /** The settings recorded after some frames. */
  function PeerOf(fs: seq<Sent>, t: Settings): Settings {
    if fs == [] then t else Stated(Pairs(fs[0].payload).0, t)
  }

  ghost predicate Comes(d: Run, s: Session, pre: seq<Sent>, fs: seq<Sent>) {
    if Accepts(s.server, pre + fs) then
      && d.err == 0 && d.rest == [] && Remembers(d.s, d.u, pre + fs)
      && d.s.server == s.server && d.s.peerControl == s.peerControl && d.s.peerEncoder == s.peerEncoder
      && d.s.peerDecoder == s.peerDecoder
      && d.s.peer == if pre == [] then PeerOf(fs, s.peer) else s.peer
    else
      exists n :: 0 <= n < |fs| && Accepts(s.server, pre + fs[..n]) && Fault(s.server, pre + fs[..n], fs[n]) != 0
        && d.err == Fault(s.server, pre + fs[..n], fs[n])
  }

  lemma {:induction false} FramesRead(s: Session, u: Uni, pre: seq<Sent>, fs: seq<Sent>)
    requires Remembers(s, u, pre) && Accepts(s.server, pre) && A.AllWritable(fs)
    ensures Comes(Drive(s, u, A.Wire(fs)), s, pre, fs)
    decreases |fs|
  {
    hide Drive, FrameBytes, Remembers, Accepts, Fault;
    if fs == [] {
      assert pre + fs == pre;
      Starves(s, u, pre);
    } else {
      var f, more := fs[0], fs[1..];
      OneMore(s.server, pre, f, 0);
      var t := FrameRead(s, u, pre, f, A.Wire(more));
      if Fault(s.server, pre, f) != 0 {
        assert pre + fs[..0] == pre;
        FaultIsFinal(s.server, pre, fs, 0);
      } else {
        FramesRead(t, Closed(u, f), pre + [f], more);
        FirstIsSettings(s.server, pre, f);
        ComesOn(Drive(t, Closed(u, f), A.Wire(more)), s, t, pre, fs);
      }
    }
  }

  lemma FirstIsSettings(server: bool, pre: seq<Sent>, f: Sent)
    requires Fault(server, pre, f) == 0
    ensures f.ty == 0x04 <==> pre == []
  {
  }

  lemma Starves(s: Session, u: Uni, pre: seq<Sent>)
    requires Remembers(s, u, pre)
    ensures Drive(s, u, []) == Run(s, u, [], 0)
  {
    NoFrame(s, u);
    Unfold(s, u, []);
  }

  lemma FaultIsFinal(server: bool, pre: seq<Sent>, fs: seq<Sent>, n: nat)
    requires n < |fs| && Fault(server, pre + fs[..n], fs[n]) != 0
    ensures !Accepts(server, pre + fs)
  {
    hide Fault;
    var all, k := pre + fs, |pre| + n;
    assert all[..k] == pre + fs[..n] && all[k] == fs[n];
  }

  lemma ComesOn(e: Run, s: Session, t: Session, pre: seq<Sent>, fs: seq<Sent>)
    requires fs != [] && Comes(e, t, pre + [fs[0]], fs[1..]) && (fs[0].ty == 0x04 <==> pre == [])
    requires t.server == s.server && t.peerControl == s.peerControl && t.peerEncoder == s.peerEncoder
    requires t.peerDecoder == s.peerDecoder
    requires t.peer == if fs[0].ty == 0x04 then Stated(Pairs(fs[0].payload).0, s.peer) else s.peer
    ensures Comes(e, s, pre, fs)
  {
    hide Remembers, Accepts, Fault, Stated, Pairs;
    var f, more := fs[0], fs[1..];
    assert pre + [f] + more == pre + fs;
    if !Accepts(s.server, pre + fs) {
      var n :| 0 <= n < |more| && Accepts(s.server, pre + [f] + more[..n])
        && Fault(s.server, pre + [f] + more[..n], more[n]) != 0
        && e.err == Fault(s.server, pre + [f] + more[..n], more[n]);
      assert pre + [f] + more[..n] == pre + fs[..n + 1] && more[n] == fs[n + 1];
    }
  }

  /** The first faulty frame. */
  predicate FaultyAt(server: bool, fs: seq<Sent>, n: nat)
    requires n < |fs|
  {
    Accepts(server, fs[..n]) && Fault(server, fs[..n], fs[n]) != 0
  }

  /** A control stream of any frames, delivered in any pieces: taken if and only if no frame is at fault,
      and then what the peer said, and nothing else, is recorded; otherwise the connection ends with the
      error the first faulty frame calls for. */
  lemma ControlExactly(server: bool, fs: seq<Sent>, chunks: seq<ByteSeq>)
    requires A.AllWritable(fs) && Join(chunks) == Varint.Encode(STREAM_CONTROL) + A.Wire(fs)
    ensures var d := Feed(Run(Start(server), UNI, [], 0), chunks);
            && (d.err == 0 <==> Accepts(server, fs))
            && (Accepts(server, fs) ==>
                  && d.rest == []
                  && d.s == Start(server).(peerControl := true, peerSettings := fs != [],
                                           peer := PeerOf(fs, Start(server).peer),
                                           goaway := LastOf(Ids(fs, 0x07)), maxPushId := PushLimit(Ids(fs, 0x0d))))
            && (forall n :: 0 <= n < |fs| && FaultyAt(server, fs, n) ==> d.err == Fault(server, fs[..n], fs[n]))
  {
    hide Drive, Feed, Join, Fault, Varint.Encode, A.Wire, Accepts, FaultyAt, PeerOf, Ids, Step;
    var s := Start(server);
    FragmentationIndependence(s, chunks);
    Unfold(s, UNI, Join(chunks));
    TypeStep(s, A.Wire(fs));
    var s1 := s.(peerControl := true);
    NothingYet(s1);
    FramesRead(s1, UNI.(kind := Control), [], fs);
    FromTheStart(Drive(s1, UNI.(kind := Control), A.Wire(fs)), s1, fs);
  }

  /** Some id is this one or one before it. */
  predicate Named(ids: seq<nat>, id: nat) { exists i :: 0 <= i < |ids| && ids[i] <= id }

  /** A stream is given up exactly when some GOAWAY has named it or one before it. */
  lemma GivenUpExactly(server: bool, fs: seq<Sent>, chunks: seq<ByteSeq>, id: nat)
    requires A.AllWritable(fs) && Join(chunks) == Varint.Encode(STREAM_CONTROL) + A.Wire(fs) && Accepts(server, fs)
    ensures GoneAway(Feed(Run(Start(server), UNI, [], 0), chunks).s, id)
            <==> Named(Ids(fs, 0x07), id)
  {
    hide Drive, Feed, Join, Fault, Varint.Encode, A.Wire, Accepts, FaultyAt, PeerOf, Ids, Step;
    var s := Start(server);
    FragmentationIndependence(s, chunks);
    Unfold(s, UNI, Join(chunks));
    TypeStep(s, A.Wire(fs));
    var s1 := s.(peerControl := true);
    NothingYet(s1);
    FramesRead(s1, UNI.(kind := Control), [], fs);
    var d := Drive(s1, UNI.(kind := Control), A.Wire(fs));
    FromTheStart(d, s1, fs);
    LastIsLeast(d.s, d.u, fs, id);
  }

  lemma LastIsLeast(s: Session, u: Uni, fs: seq<Sent>, id: nat)
    requires Remembers(s, u, fs)
    ensures GoneAway(s, id) <==> Named(Ids(fs, 0x07), id)
  {
    hide Ids;
    var ids := Ids(fs, 0x07);
    assert ids != [] ==> s.goaway == Some(ids[|ids| - 1]);
    if GoneAway(s, id) {
      assert ids[|ids| - 1] <= id;
    }
  }

  lemma NothingYet(s: Session)
    requires !s.peerSettings && s.goaway.None? && s.maxPushId == 0
    ensures Remembers(s, UNI.(kind := Control), []) && Accepts(s.server, [])
  {
  }

  lemma FromTheStart(d: Run, s: Session, fs: seq<Sent>)
    requires Comes(d, s, [], fs)
    ensures d.err == 0 <==> Accepts(s.server, fs)
    ensures Accepts(s.server, fs) ==>
              && d.rest == [] && Remembers(d.s, d.u, fs) && d.s.peer == PeerOf(fs, s.peer)
              && d.s.server == s.server && d.s.peerControl == s.peerControl && d.s.peerEncoder == s.peerEncoder
              && d.s.peerDecoder == s.peerDecoder
    ensures forall n :: 0 <= n < |fs| && FaultyAt(s.server, fs, n) ==> d.err == Fault(s.server, fs[..n], fs[n])
  {
    hide Accepts, Fault, Remembers, PeerOf;
    assert [] + fs == fs;
    forall n | 0 <= n < |fs| && FaultyAt(s.server, fs, n)
      ensures !Accepts(s.server, fs) && forall k :: 0 <= k < |fs| && FaultyAt(s.server, fs, k) ==> k == n
    {
      assert [] + fs[..n] == fs[..n];
      FaultIsFinal(s.server, [], fs, n);
      forall k | 0 <= k < |fs| && FaultyAt(s.server, fs, k) ensures k == n {
        if k < n {
          NoneBefore(s.server, fs, k, n);
        } else if n < k {
          NoneBefore(s.server, fs, n, k);
        }
      }
    }
    if !Accepts(s.server, fs) {
      var n :| 0 <= n < |fs| && Accepts(s.server, [] + fs[..n]) && Fault(s.server, [] + fs[..n], fs[n]) != 0
        && d.err == Fault(s.server, [] + fs[..n], fs[n]);
      assert [] + fs[..n] == fs[..n];
      assert FaultyAt(s.server, fs, n);
    }
  }

  lemma NoneBefore(server: bool, fs: seq<Sent>, k: nat, n: nat)
    requires k < n <= |fs| && Accepts(server, fs[..n])
    ensures Fault(server, fs[..k], fs[k]) == 0
  {
    hide Fault;
    assert fs[..n][..k] == fs[..k] && fs[..n][k] == fs[k];
  }
}
