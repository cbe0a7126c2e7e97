/** Transport parameters (section 18 of RFC 9000): a list of identifiers and values, each endpoint's
    statement of its limits. */
module QuicParams {
  import opened Bytes
  import opened QuicFrame
  import opened QuicRead
  import Cursor
  import Varint

  const ORIG_DCID := 0x00
  const MAX_IDLE_TIMEOUT := 0x01
  const STATELESS_RESET := 0x02
  const MAX_UDP_PAYLOAD := 0x03
  const INIT_MAX_STR_BIDI := 0x08
  const INIT_MAX_STR_UNI := 0x09
  const ACK_DELAY_EXPONENT := 0x0a
  const MAX_ACK_DELAY := 0x0b
  const DISABLE_MIGRATION := 0x0c
  const PREFERRED_ADDRESS := 0x0d
  const ACTIVE_CID_LIMIT := 0x0e
  const INIT_SCID := 0x0f
  const RETRY_SCID := 0x10
  const MAX_DATAGRAM_FRAME := 0x20

  /** The parameters whose value is an integer, in the order they are written. */
  const INT_IDS: seq<nat> := [0x01, 0x03, 0x04, 0x05, 0x06, 0x07, 0x08, 0x09, 0x0a, 0x0b, 0x0e, 0x20]

  predicate IsInt(id: nat) { id == 0x01 || 0x03 <= id <= 0x0b || id == 0x0e || id == 0x20 }

  /** What a parameter that was not sent means. */
  function Default(id: nat): nat {
    if id == MAX_UDP_PAYLOAD then 65527
    else if id == ACK_DELAY_EXPONENT then 3
    else if id == MAX_ACK_DELAY then 25
    else if id == ACTIVE_CID_LIMIT then 2
    else 0
  }

  /** The bounds on the parameters that have them. */
  predicate InBounds(id: nat, v: nat) {
    && (id == MAX_UDP_PAYLOAD ==> v >= 1200)
    && (id == INIT_MAX_STR_BIDI || id == INIT_MAX_STR_UNI ==> v <= MAX_STREAMS)
    && (id == ACK_DELAY_EXPONENT ==> v <= 20)
    && (id == MAX_ACK_DELAY ==> v < 16384)
    && (id == ACTIVE_CID_LIMIT ==> v >= 2)
  }

  /** The integers that differ from their defaults, by identifier, and the rest. */
  datatype Params = Params(
    ints: map<nat, nat>,
    origDcid: Option<ByteSeq>,
    initScid: Option<ByteSeq>,
    retryScid: Option<ByteSeq>,
    resetToken: Option<ByteSeq>,
    disableMigration: bool)

  const DEFAULTS := Params(map[], None, None, None, None, false)

  function IntOf(p: Params, id: nat): nat { if id in p.ints then p.ints[id] else Default(id) }

  // ----- The list on the wire

  datatype Tlv = Tlv(id: nat, val: ByteSeq)

  function TlvBytes(t: Tlv): ByteSeq { V(t.id) + VBytes(t.val) }

  function Wire(ts: seq<Tlv>): ByteSeq {
    if ts == [] then [] else TlvBytes(ts[0]) + Wire(ts[1..])
  }

  function RdTlv(s: ByteSeq): (r: Option<(Tlv, ByteSeq)>)
    ensures r.Some? ==> |r.value.1| < |s|
  {
    match RdV(s)
    case None => None
    case Some((id, s1)) =>
      match RdVBytes(s1)
      case None => None
      case Some((val, s2)) => Some((Tlv(id, val), s2))
  }

  // ----- Taking one parameter

  datatype State = State(p: Params, seen: set<nat>)

  predicate Known(id: nat) { id <= RETRY_SCID || id == MAX_DATAGRAM_FRAME }

  predicate ServerOnly(id: nat) {
    id == ORIG_DCID || id == RETRY_SCID || id == STATELESS_RESET || id == PREFERRED_ADDRESS
  }

  /** A value that is one varint and nothing else. */
  function IntValue(val: ByteSeq): Option<nat> {
    match RdV(val)
    case None => None
    case Some((v, rest)) => if rest == [] then Some(v) else None
  }

  predicate PreferredOk(val: ByteSeq) {
    |val| >= 25 && |val| == 25 + val[24] + RESET_TOKEN_LEN && val[24] <= MAX_CID
  }

  function SetValue(p: Params, id: nat, val: ByteSeq): Option<Params> {
    if id == ORIG_DCID then (if |val| <= MAX_CID then Some(p.(origDcid := Some(val))) else None)
    else if id == INIT_SCID then (if |val| <= MAX_CID then Some(p.(initScid := Some(val))) else None)
    else if id == RETRY_SCID then (if |val| <= MAX_CID then Some(p.(retryScid := Some(val))) else None)
    else if id == STATELESS_RESET then
      (if |val| == RESET_TOKEN_LEN then Some(p.(resetToken := Some(val))) else None)
    else if id == DISABLE_MIGRATION then (if val == [] then Some(p.(disableMigration := true)) else None)
    else if id == PREFERRED_ADDRESS then (if PreferredOk(val) then Some(p) else None)
    else
      match IntValue(val)
      case None => None
      case Some(v) =>
        if !InBounds(id, v) then None
        else Some(p.(ints := SetInt(p.ints, id, v)))
  }

  function Take(st: State, t: Tlv, fromServer: bool): Option<State> {
    if !Known(t.id) then Some(st)
    else if t.id in st.seen || (!fromServer && ServerOnly(t.id)) then None
    else
      match SetValue(st.p, t.id, t.val)
      case None => None
      case Some(p) => Some(State(p, st.seen + {t.id}))
  }

  function TakeAll(st: State, ts: seq<Tlv>, fromServer: bool): Option<State>
    decreases |ts|
  {
    if ts == [] then Some(st)
    else
      match Take(st, ts[0], fromServer)
      case None => None
      case Some(u) => TakeAll(u, ts[1..], fromServer)
  }

  /** Reads and takes one parameter after another. */
  function TakeWire(st: State, s: ByteSeq, fromServer: bool): Option<State>
    decreases |s|
  {
    if s == [] then Some(st)
    else
      match RdTlv(s)
      case None => None
      case Some((t, rest)) =>
        match Take(st, t, fromServer)
        case None => None
        case Some(u) => TakeWire(u, rest, fromServer)
  }

  /** What must have been stated for the handshake to be checked. */
  predicate Stated(p: Params, fromServer: bool) { p.initScid.Some? && (fromServer ==> p.origDcid.Some?) }

  function Decode(s: ByteSeq, fromServer: bool): Option<Params> {
    match TakeWire(State(DEFAULTS, {}), s, fromServer)
    case None => None
    case Some(st) => if Stated(st.p, fromServer) then Some(st.p) else None
  }

  // ----- What an endpoint writes

  function Cond(c: bool, t: Tlv): seq<Tlv> { if c then [t] else [] }

  function ValueOf(o: Option<ByteSeq>): ByteSeq { if o.Some? then o.value else [] }

  function IntTlvs(p: Params, ids: seq<nat>): seq<Tlv> {
    if ids == [] then []
    else Cond(IntOf(p, ids[0]) != Default(ids[0]), Tlv(ids[0], V(IntOf(p, ids[0])))) + IntTlvs(p, ids[1..])
  }

  function CidTlvs(p: Params, server: bool): seq<Tlv> {
    Cond(p.initScid.Some?, Tlv(INIT_SCID, ValueOf(p.initScid)))
    + (Cond(server && p.origDcid.Some?, Tlv(ORIG_DCID, ValueOf(p.origDcid)))
       + (Cond(server && p.retryScid.Some?, Tlv(RETRY_SCID, ValueOf(p.retryScid)))
          + Cond(server && p.resetToken.Some?, Tlv(STATELESS_RESET, ValueOf(p.resetToken)))))
  }

  function Tlvs(p: Params, server: bool): seq<Tlv> {
    CidTlvs(p, server) + (IntTlvs(p, INT_IDS) + Cond(p.disableMigration, Tlv(DISABLE_MIGRATION, [])))
  }

  function Encode(p: Params, server: bool): ByteSeq { Wire(Tlvs(p, server)) }

  // ----- Reading what was written

  predicate TlvOk(t: Tlv) { Fits(t.id) && Fits(|t.val|) }

  lemma ReadTlv(t: Tlv, rest: ByteSeq)
    requires TlvOk(t)
    ensures RdTlv(TlvBytes(t) + rest) == Some((t, rest))
  {
    hide V, RdV, RdVBytes, VBytes;
    assert TlvBytes(t) + rest == V(t.id) + (VBytes(t.val) + rest);
    ReadV(t.id, VBytes(t.val) + rest);
    ReadVBytes(t.val, rest);
  }

  /** What follows `st`, if it got that far. */
  function Then(st: Option<State>, s: ByteSeq, fromServer: bool): Option<State> {
    if st.None? then None else TakeWire(st.value, s, fromServer)
  }

  lemma {:induction false} TakeWritten(st: State, ts: seq<Tlv>, s: ByteSeq, fromServer: bool)
    requires forall i :: 0 <= i < |ts| ==> TlvOk(ts[i])
    ensures TakeWire(st, Wire(ts) + s, fromServer) == Then(TakeAll(st, ts, fromServer), s, fromServer)
    decreases |ts|
  {
    hide RdTlv, Take, TlvBytes;
    if ts == [] {
      assert Wire(ts) + s == s;
    } else {
      var rest := Wire(ts[1..]) + s;
      assert Wire(ts) + s == TlvBytes(ts[0]) + rest;
      ReadTlv(ts[0], rest);
      var u := Take(st, ts[0], fromServer);
      if u.Some? {
        TakeWritten(u.value, ts[1..], s, fromServer);
      }
    }
  }

  lemma {:induction false} TakeConcat(st: State, a: seq<Tlv>, b: seq<Tlv>, fs: bool)
    ensures TakeAll(st, a + b, fs)
            == if TakeAll(st, a, fs).None? then None else TakeAll(TakeAll(st, a, fs).value, b, fs)
    decreases |a|
  {
    hide Take;
    if a == [] {
      assert a + b == b;
    } else {
      assert (a + b)[1..] == a[1..] + b;
      var u := Take(st, a[0], fs);
      if u.Some? {
        TakeConcat(u.value, a[1..], b, fs);
      }
    }
  }

  // ----- The round trip

  /** Parameters an endpoint could have: within their bounds, and held as defaults are. */
  predicate InRange(p: Params) {
    && (forall id :: id in p.ints ==>
          IsInt(id) && p.ints[id] != Default(id) && InBounds(id, p.ints[id]) && Fits(p.ints[id]))
    && (p.origDcid.Some? ==> |p.origDcid.value| <= MAX_CID)
    && (p.initScid.Some? ==> |p.initScid.value| <= MAX_CID)
    && (p.retryScid.Some? ==> |p.retryScid.value| <= MAX_CID)
    && (p.resetToken.Some? ==> |p.resetToken.value| == RESET_TOKEN_LEN)
  }

  /** What an endpoint of one role or the other says of itself. */
  function Visible(p: Params, server: bool): Params {
    if server then p else p.(origDcid := None, retryScid := None, resetToken := None)
  }

  lemma TakeCond(st: State, c: bool, t: Tlv, fs: bool)
    ensures TakeAll(st, Cond(c, t), fs) == if c then Take(st, t, fs) else Some(st)
  {
    hide Take;
    assert [t][1..] == [];
  }

  lemma CidsTaken(p: Params, server: bool)
    requires InRange(p)
    ensures var r := TakeAll(State(DEFAULTS, {}), CidTlvs(p, server), server);
            && r.Some? && r.value.p == Visible(p, server).(ints := map[], disableMigration := false)
            && r.value.seen <= {INIT_SCID, ORIG_DCID, RETRY_SCID, STATELESS_RESET}
  {
    hide TakeAll;
    var t1 := Tlv(INIT_SCID, ValueOf(p.initScid));
    var t2 := Tlv(ORIG_DCID, ValueOf(p.origDcid));
    var t3 := Tlv(RETRY_SCID, ValueOf(p.retryScid));
    var t4 := Tlv(STATELESS_RESET, ValueOf(p.resetToken));
    var c1, c2, c3, c4 := p.initScid.Some?, server && p.origDcid.Some?, server && p.retryScid.Some?,
                          server && p.resetToken.Some?;
    var s0 := State(DEFAULTS, {});
    TakeConcat(s0, Cond(c1, t1), Cond(c2, t2) + (Cond(c3, t3) + Cond(c4, t4)), server);
    TakeCond(s0, c1, t1, server);
    var s1 := TakeAll(s0, Cond(c1, t1), server).value;
    TakeConcat(s1, Cond(c2, t2), Cond(c3, t3) + Cond(c4, t4), server);
    TakeCond(s1, c2, t2, server);
    var s2 := TakeAll(s1, Cond(c2, t2), server).value;
    TakeConcat(s2, Cond(c3, t3), Cond(c4, t4), server);
    TakeCond(s2, c3, t3, server);
    var s3 := TakeAll(s2, Cond(c3, t3), server).value;
    TakeCond(s3, c4, t4, server);
  }

  /** `ids` are integer parameters not yet taken, each once. */
  predicate Ahead(st: State, ids: seq<nat>) {
    && (forall i :: 0 <= i < |ids| ==> IsInt(ids[i]) && ids[i] !in st.seen && ids[i] !in st.p.ints)
    && (forall i, j :: 0 <= i < j < |ids| ==> ids[i] != ids[j])
  }

  lemma IntTaken(st: State, id: nat, v: nat, fs: bool)
    requires IsInt(id) && id !in st.seen && v != Default(id) && InBounds(id, v) && Fits(v)
    ensures Take(st, Tlv(id, V(v)), fs)
            == Some(State(st.p.(ints := st.p.ints[id := v]), st.seen + {id}))
  {
    hide V, RdV;
    ReadV(v, []);
    assert V(v) + [] == V(v);
  }

  lemma {:induction false} IntsTaken(st: State, p: Params, ids: seq<nat>, fs: bool)
    requires InRange(p) && Ahead(st, ids)
    ensures var r := TakeAll(st, IntTlvs(p, ids), fs);
            && r.Some? && r.value.seen <= st.seen + (set i | i in ids)
            && r.value.p == st.p.(ints := r.value.p.ints)
            && (forall id :: id in r.value.p.ints <==> id in st.p.ints || (id in ids && id in p.ints))
            && (forall id :: id in r.value.p.ints ==>
                  r.value.p.ints[id] == if id in ids then p.ints[id] else st.p.ints[id])
    decreases |ids|
  {
    hide Take;
    if ids != [] {
      var id := ids[0];
      var t := Tlv(id, V(IntOf(p, id)));
      var more := IntTlvs(p, ids[1..]);
      var c := IntOf(p, id) != Default(id);
      TakeConcat(st, Cond(c, t), more, fs);
      TakeCond(st, c, t, fs);
      assert c <==> id in p.ints;
      if c {
        IntTaken(st, id, p.ints[id], fs);
      }
      var u := TakeAll(st, Cond(c, t), fs).value;
      assert Ahead(u, ids[1..]);
      IntsTaken(u, p, ids[1..], fs);
      assert forall k :: k in ids <==> k == id || k in ids[1..];
    }
  }

  lemma IntIds(st: State)
    requires st.p.ints == map[] && st.seen <= {INIT_SCID, ORIG_DCID, RETRY_SCID, STATELESS_RESET}
    ensures Ahead(st, INT_IDS)
    ensures forall id :: IsInt(id) <==> id in INT_IDS
  {
  }

  predicate AllOk(ts: seq<Tlv>) { forall i :: 0 <= i < |ts| ==> TlvOk(ts[i]) }

  lemma {:induction false} IntTlvsOk(p: Params, ids: seq<nat>)
    requires InRange(p) && forall i :: 0 <= i < |ids| ==> IsInt(ids[i])
    ensures AllOk(IntTlvs(p, ids))
  {
    hide Varint.Encode;
    if ids != [] {
      IntTlvsOk(p, ids[1..]);
      var first := Cond(IntOf(p, ids[0]) != Default(ids[0]), Tlv(ids[0], V(IntOf(p, ids[0]))));
      assert AllOk(first);
      assert IntTlvs(p, ids) == first + IntTlvs(p, ids[1..]);
    }
  }

  lemma TlvsOk(p: Params, server: bool)
    requires InRange(p)
    ensures AllOk(Tlvs(p, server))
  {
    hide IntTlvs;
    IntTlvsOk(p, INT_IDS);
    assert AllOk(CidTlvs(p, server));
    assert AllOk(Cond(p.disableMigration, Tlv(DISABLE_MIGRATION, [])));
  }

  /** An endpoint's parameters, within their bounds, reach its peer as they were, a client's without
      those only a server has: if what a peer insists on was among them, and otherwise not at all. */
  lemma ParamsRoundTrip(p: Params, server: bool)
    requires InRange(p)
    ensures Decode(Encode(p, server), server)
            == if Stated(p, server) then Some(Visible(p, server)) else None
  {
    hide TakeWire, TakeAll, Take, CidTlvs, IntTlvs, Wire, InRange;
    var s0 := State(DEFAULTS, {});
    var ints, last := IntTlvs(p, INT_IDS), Cond(p.disableMigration, Tlv(DISABLE_MIGRATION, []));
    TlvsOk(p, server);
    TakeWritten(s0, Tlvs(p, server), [], server);
    assert Wire(Tlvs(p, server)) + [] == Wire(Tlvs(p, server));
    TakeConcat(s0, CidTlvs(p, server), ints + last, server);
    CidsTaken(p, server);
    var s1 := TakeAll(s0, CidTlvs(p, server), server).value;
    TakeConcat(s1, ints, last, server);
    IntIds(s1);
    IntsTaken(s1, p, INT_IDS, server);
    var s2 := TakeAll(s1, ints, server).value;
    TakeCond(s2, p.disableMigration, Tlv(DISABLE_MIGRATION, []), server);
    IntsOnly(p);
    assert s2.p.ints == p.ints;
    MigrationTaken(s2, server);
    NothingMore(TakeAll(s0, Tlvs(p, server), server), server);
  }

  lemma IntsOnly(p: Params)
    requires InRange(p)
    ensures forall id :: id in p.ints ==> id in INT_IDS
  {
    IntIds(State(DEFAULTS, {}));
  }

  lemma MigrationTaken(st: State, fs: bool)
    requires DISABLE_MIGRATION !in st.seen
    ensures Take(st, Tlv(DISABLE_MIGRATION, []), fs)
            == Some(State(st.p.(disableMigration := true), st.seen + {DISABLE_MIGRATION}))
  {
  }

  lemma NothingMore(st: Option<State>, fs: bool)
    ensures Then(st, [], fs) == st
  {
  }

  // ----- Repeats, strangers, and order

  lemma {:induction false} SeenRefused(st: State, ts: seq<Tlv>, k: nat, fs: bool)
    requires k < |ts| && Known(ts[k].id) && ts[k].id in st.seen
    ensures TakeAll(st, ts, fs).None?
    decreases |ts|
  {
    if k > 0 {
      var u := Take(st, ts[0], fs);
      if u.Some? {
        SeenRefused(u.value, ts[1..], k - 1, fs);
      }
    }
  }

  lemma {:induction false} TwiceRefused(st: State, ts: seq<Tlv>, j: nat, k: nat, fs: bool)
    requires j < k < |ts| && ts[j].id == ts[k].id && Known(ts[j].id)
    ensures TakeAll(st, ts, fs).None?
    decreases |ts|
  {
    hide SetValue;
    var u := Take(st, ts[0], fs);
    if u.Some? {
      if j == 0 {
        SeenRefused(u.value, ts[1..], k - 1, fs);
      } else {
        TwiceRefused(u.value, ts[1..], j - 1, k - 1, fs);
      }
    }
  }

  /** The list that some bytes are, however their integers are encoded. */
  function Parse(s: ByteSeq): Option<seq<Tlv>>
    decreases |s|
  {
    if s == [] then Some([])
    else
      match RdTlv(s)
      case None => None
      case Some((t, rest)) =>
        match Parse(rest)
        case None => None
        case Some(ts) => Some([t] + ts)
  }

  lemma {:induction false} TakesParsed(st: State, s: ByteSeq, fs: bool)
    ensures TakeWire(st, s, fs) == if Parse(s).None? then None else TakeAll(st, Parse(s).value, fs)
    decreases |s|
  {
    hide RdTlv, Take;
    if s != [] {
      var r := RdTlv(s);
      if r.Some? {
        var (t, rest) := r.value;
        var u := Take(st, t, fs);
        if Parse(rest).Some? {
          assert ([t] + Parse(rest).value)[1..] == Parse(rest).value;
        }
        if u.Some? {
          TakesParsed(u.value, rest, fs);
        }
      }
    }
  }

  /** Any bytes in which a parameter that is known comes twice are refused. */
  lemma RepeatRefused(s: ByteSeq, j: nat, k: nat, fs: bool)
    requires Parse(s).Some? && j < k < |Parse(s).value|
    requires Parse(s).value[j].id == Parse(s).value[k].id && Known(Parse(s).value[j].id)
    ensures Decode(s, fs).None?
  {
    hide TakeWire, TakeAll, Parse;
    TakesParsed(State(DEFAULTS, {}), s, fs);
    TwiceRefused(State(DEFAULTS, {}), Parse(s).value, j, k, fs);
  }

  /** The parameters this version knows. */
  function KnownOf(ts: seq<Tlv>): seq<Tlv> {
    if ts == [] then [] else (if Known(ts[0].id) then [ts[0]] else []) + KnownOf(ts[1..])
  }

  lemma {:induction false} TakesKnown(st: State, ts: seq<Tlv>, fs: bool)
    ensures TakeAll(st, ts, fs) == TakeAll(st, KnownOf(ts), fs)
    ensures forall i :: 0 <= i < |KnownOf(ts)| ==> Known(KnownOf(ts)[i].id)
    decreases |ts|
  {
    hide SetValue;
    if ts != [] {
      var u := Take(st, ts[0], fs);
      if Known(ts[0].id) {
        assert KnownOf(ts)[1..] == KnownOf(ts[1..]);
      } else {
        assert KnownOf(ts) == KnownOf(ts[1..]);
      }
      TakesKnown(if u.Some? then u.value else st, ts[1..], fs);
    }
  }

  /** Parameters this version does not know change nothing: any bytes that hold the same known ones in
      the same order, with whatever others among them, mean the same. */
  lemma StrangersIgnored(s: ByteSeq, t: ByteSeq, fs: bool)
    requires Parse(s).Some? == Parse(t).Some?
    requires Parse(s).Some? ==> KnownOf(Parse(s).value) == KnownOf(Parse(t).value)
    ensures Decode(s, fs) == Decode(t, fs)
  {
    hide TakeWire, TakeAll, Parse, KnownOf;
    var st := State(DEFAULTS, {});
    TakesParsed(st, s, fs);
    TakesParsed(st, t, fs);
    if Parse(s).Some? {
      TakesKnown(st, Parse(s).value, fs);
      TakesKnown(st, Parse(t).value, fs);
    }
  }

  lemma Commute(st: State, x: Tlv, y: Tlv, fs: bool)
    requires x.id != y.id
    ensures TakeAll(st, [x, y], fs) == TakeAll(st, [y, x], fs)
  {
    hide SetValue;
    var p := st.p;
    SetCommutes(p, x, y);
    assert [x, y][1..] == [y] && [y, x][1..] == [x] && [x][1..] == [] && [y][1..] == [];
    assert st.seen + {x.id} + {y.id} == st.seen + {y.id} + {x.id};
  }

  lemma SetCommutes(p: Params, x: Tlv, y: Tlv)
    requires x.id != y.id
    ensures var px, py := SetValue(p, x.id, x.val), SetValue(p, y.id, y.val);
            && (px.Some? ==> (SetValue(px.value, y.id, y.val).Some? <==> py.Some?))
            && (py.Some? ==> (SetValue(py.value, x.id, x.val).Some? <==> px.Some?))
            && (px.Some? && py.Some? ==> SetValue(px.value, y.id, y.val) == SetValue(py.value, x.id, x.val))
  {
    hide IntValue, PreferredOk;
    IntsCommute(p.ints, x, y);
  }

  function SetInt(ints: map<nat, nat>, id: nat, v: nat): map<nat, nat> {
    if v == Default(id) then ints - {id} else ints[id := v]
  }

  lemma IntsCommute(ints: map<nat, nat>, x: Tlv, y: Tlv)
    requires x.id != y.id
    ensures forall v: nat, w: nat {:trigger SetInt(SetInt(ints, x.id, v), y.id, w)} ::
              SetInt(SetInt(ints, x.id, v), y.id, w) == SetInt(SetInt(ints, y.id, w), x.id, v)
  {
    forall v: nat, w: nat
      ensures SetInt(SetInt(ints, x.id, v), y.id, w) == SetInt(SetInt(ints, y.id, w), x.id, v)
    {
      assert SetInt(SetInt(ints, x.id, v), y.id, w) == SetInt(SetInt(ints, y.id, w), x.id, v);
    }
  }

  lemma SwapFront(st: State, x: Tlv, y: Tlv, rest: seq<Tlv>, fs: bool)
    requires Known(x.id)
    ensures TakeAll(st, [x, y] + rest, fs) == TakeAll(st, [y, x] + rest, fs)
  {
    hide Take, TakeAll;
    TakeConcat(st, [x, y], rest, fs);
    TakeConcat(st, [y, x], rest, fs);
    if x.id != y.id {
      Commute(st, x, y, fs);
    } else {
      TwiceRefused(st, [x, y], 0, 1, fs);
      TwiceRefused(st, [y, x], 0, 1, fs);
    }
  }

  lemma TakeCons(st: State, x: Tlv, more: seq<Tlv>, fs: bool)
    ensures var u := Take(st, x, fs);
            TakeAll(st, [x] + more, fs) == if u.None? then None else TakeAll(u.value, more, fs)
  {
    hide Take;
    assert ([x] + more)[1..] == more;
  }

  /** A list without its `i`-th. */
  function Less(us: seq<Tlv>, i: nat): seq<Tlv>
    requires i < |us|
  {
    us[..i] + us[i + 1..]
  }

  lemma LessIs(us: seq<Tlv>, i: nat)
    requires i < |us|
    ensures multiset(us) == multiset(Less(us, i)) + multiset{us[i]}
  {
    var a, x, b := us[..i], us[i], us[i + 1..];
    assert us == a + ([x] + b);
    assert multiset(a + ([x] + b)) == multiset(a) + multiset([x] + b);
    assert multiset([x] + b) == multiset([x]) + multiset(b);
    assert multiset(a + b) == multiset(a) + multiset(b);
  }

  lemma LessFront(us: seq<Tlv>, i: nat)
    requires 0 < i < |us|
    ensures us == [us[0]] + us[1..]
    ensures [us[i]] + Less(us, i) == [us[i], us[0]] + Less(us[1..], i - 1)
  {
    var more := us[1..];
    assert more[..i - 1] == us[1..i] && more[i..] == us[i + 1..];
    assert us[..i] == [us[0]] + us[1..i];
  }

  /** Taking the `i`-th of a list first changes nothing. */
  lemma {:induction false} TakeFirst(st: State, us: seq<Tlv>, i: nat, fs: bool)
    requires i < |us| && Known(us[i].id)
    ensures TakeAll(st, us, fs) == TakeAll(st, [us[i]] + Less(us, i), fs)
    decreases i
  {
    hide Take, TakeAll, Less;
    if i == 0 {
      LessFirst(us);
      assert [us[0]] + us[1..] == us;
    } else {
      LessFront(us, i);
      var x, y, more := us[i], us[0], us[1..];
      var rest := Less(more, i - 1);
      var u := Take(st, y, fs);
      if u.Some? {
        TakeFirst(u.value, more, i - 1, fs);
      }
      TakeCons(st, y, more, fs);
      TakeCons(st, y, [x] + rest, fs);
      assert [y] + ([x] + rest) == [y, x] + rest;
      SwapFront(st, x, y, rest, fs);
    }
  }

  lemma {:induction false} AnyOrder(st: State, ts: seq<Tlv>, us: seq<Tlv>, fs: bool)
    requires multiset(ts) == multiset(us) && forall i :: 0 <= i < |ts| ==> Known(ts[i].id)
    ensures TakeAll(st, ts, fs) == TakeAll(st, us, fs)
    decreases |ts|
  {
    hide Take, TakeAll, Less;
    if ts == [] {
      assert |multiset(us)| == 0;
    } else {
      var x := ts[0];
      assert x in multiset(us);
      var i :| 0 <= i < |us| && us[i] == x;
      TakeFirst(st, us, i, fs);
      LessIs(us, i);
      LessIs(ts, 0);
      LessFirst(ts);
      assert [x] + ts[1..] == ts;
      assert multiset(ts[1..]) == multiset(ts) - multiset{x} == multiset(Less(us, i));
      TakeCons(st, x, ts[1..], fs);
      TakeCons(st, x, Less(us, i), fs);
      var u := Take(st, x, fs);
      if u.Some? {
        AnyOrder(u.value, ts[1..], Less(us, i), fs);
      }
    }
  }

  lemma LessFirst(ts: seq<Tlv>)
    requires ts != []
    ensures Less(ts, 0) == ts[1..]
  {
  }

  /** Nor does the order of the known ones matter: any bytes that hold the same known parameters, in any
      order and with whatever others among them, mean the same. */
  lemma OrderIgnored(s: ByteSeq, t: ByteSeq, fs: bool)
    requires Parse(s).Some? == Parse(t).Some?
    requires Parse(s).Some? ==> multiset(KnownOf(Parse(s).value)) == multiset(KnownOf(Parse(t).value))
    ensures Decode(s, fs) == Decode(t, fs)
  {
    hide TakeWire, TakeAll, Parse, KnownOf;
    var st := State(DEFAULTS, {});
    TakesParsed(st, s, fs);
    TakesParsed(st, t, fs);
    if Parse(s).Some? {
      TakesKnown(st, Parse(s).value, fs);
      TakesKnown(st, Parse(t).value, fs);
      AnyOrder(st, KnownOf(Parse(s).value), KnownOf(Parse(t).value), fs);
    }
  }

  /** What an endpoint writes is such a list. */
  lemma {:induction false} WrittenParses(ts: seq<Tlv>)
    requires forall i :: 0 <= i < |ts| ==> TlvOk(ts[i])
    ensures Parse(Wire(ts)) == Some(ts)
  {
    hide RdTlv, TlvBytes;
    if ts != [] {
      ReadTlv(ts[0], Wire(ts[1..]));
      WrittenParses(ts[1..]);
      assert [ts[0]] + ts[1..] == ts;
      TlvIsSome(ts[0], Wire(ts[1..]));
    }
  }

  lemma TlvIsSome(t: Tlv, rest: ByteSeq)
    requires TlvOk(t)
    ensures TlvBytes(t) + rest != []
  {
    ReadTlv(t, rest);
  }

  // ----- As it runs

  method ParamsDecode(data: ByteSeq, fromServer: bool) returns (p: Option<Params>)
    ensures p == Decode(data, fromServer)
  {
    hide RdV, RdVBytes, SetValue;
    var rd := new Cursor.Reader(data);
    var st := State(DEFAULTS, {});
    while rd.Left() > 0
      invariant rd.Valid() && !rd.bad && fresh(rd)
      invariant TakeWire(State(DEFAULTS, {}), data, fromServer) == TakeWire(st, rd.Rest(), fromServer)
      decreases |rd.Rest()|
    {
      var id := TakeV(rd);
      var val := TakeVBytes(rd);
      if rd.bad {
        return None;
      }
      if !Known(id) {
        continue;
      }
      if id in st.seen || (!fromServer && ServerOnly(id)) {
        return None;
      }
      var q := SetValue(st.p, id, val);
      if q.None? {
        return None;
      }
      st := State(q.value, st.seen + {id});
    }
    if !Stated(st.p, fromServer) {
      return None;
    }
    return Some(st.p);
  }
}
