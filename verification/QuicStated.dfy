/** What a list of transport parameters says, by the table of section 18.2 of RFC 9000: which lists an
    endpoint takes and what it then knows of its peer, without running the decoder. */
module QuicStated {
  import opened Bytes
  import opened QuicParams
  import QuicFrame
  import Varint

  /** The value of the last parameter named `id`. */
  function Value(ts: seq<Tlv>, id: nat): Option<ByteSeq> {
    if ts == [] then None
    else if ts[|ts| - 1].id == id then Some(ts[|ts| - 1].val)
    else Value(ts[..|ts| - 1], id)
  }

  /** The integer that `val` is an encoding of, the shortest or not. */
  function Number(val: ByteSeq): Option<nat> {
    var r := Varint.Decode(val);
    if r.Some? && r.value.1 == |val| then Some(r.value.0) else None
  }

  predicate Defined(id: nat) { id <= 0x10 || id == 0x20 }

  /** The integers a parameter may state. */
  predicate Range(id: nat, v: nat) {
    if id == 0x03 then 1200 <= v
    else if id == 0x08 || id == 0x09 then v <= 1152921504606846976
    else if id == 0x0a then v <= 20
    else if id == 0x0b then v <= 16383
    else if id == 0x0e then 2 <= v
    else true
  }

  /** The values a defined parameter may have. */
  predicate Meets(t: Tlv) {
    if t.id in {0x00, 0x0f, 0x10} then |t.val| <= 20
    else if t.id == 0x02 then |t.val| == 16
    else if t.id == 0x0c then t.val == []
    else if t.id == 0x0d then 41 <= |t.val| <= 61 && t.val[24] == |t.val| - 41
    else Number(t.val).Some? && Range(t.id, Number(t.val).value)
  }

  /** Those a client may state. */
  predicate FromAnyone(id: nat) { id !in {0x00, 0x02, 0x0d, 0x10} }

  predicate Once(ts: seq<Tlv>) {
    forall i, j :: 0 <= i < j < |ts| && Defined(ts[i].id) ==> ts[i].id != ts[j].id
  }

  predicate EachMeets(ts: seq<Tlv>, fromServer: bool) {
    forall i :: 0 <= i < |ts| && Defined(ts[i].id) ==> Meets(ts[i]) && (fromServer || FromAnyone(ts[i].id))
  }

  /** What a parameter left out is taken to be. */
  function Otherwise(id: nat): nat {
    if id == 0x03 then 65527 else if id == 0x0a then 3 else if id == 0x0b then 25 else if id == 0x0e then 2 else 0
  }

  function Integer(ts: seq<Tlv>, id: nat): nat {
    var val := Value(ts, id);
    if val.Some? && Number(val.value).Some? then Number(val.value).value else Otherwise(id)
  }

  const INTEGERS: set<nat> := {0x01, 0x03, 0x04, 0x05, 0x06, 0x07, 0x08, 0x09, 0x0a, 0x0b, 0x0e, 0x20}

  /** `p` says what the list does, of everything it holds. */
  predicate Reflects(p: Params, ts: seq<Tlv>) {
    && (forall id :: id in INTEGERS ==>
          IntOf(p, id) == Integer(ts, id))
    && p.origDcid == Value(ts, 0x00) && p.initScid == Value(ts, 0x0f) && p.retryScid == Value(ts, 0x10)
    && p.resetToken == Value(ts, 0x02) && (p.disableMigration <==> Value(ts, 0x0c).Some?)
  }

  predicate Acceptable(ts: seq<Tlv>, fromServer: bool) {
    && Once(ts) && EachMeets(ts, fromServer)
    && Value(ts, 0x0f).Some? && (fromServer ==> Value(ts, 0x00).Some?)
  }

  // ----- One parameter more

  lemma ValueAppend(ts: seq<Tlv>, t: Tlv, id: nat)
    ensures Value(ts + [t], id) == if t.id == id then Some(t.val) else Value(ts, id)
  {
    assert (ts + [t])[..|ts|] == ts;
  }

  lemma {:induction false} ValueStands(ts: seq<Tlv>, id: nat)
    ensures Value(ts, id).Some? <==> exists i :: 0 <= i < |ts| && ts[i].id == id
  {
    if ts != [] && ts[|ts| - 1].id != id {
      var front := ts[..|ts| - 1];
      ValueStands(front, id);
      if i :| 0 <= i < |ts| && ts[i].id == id {
        assert front[i].id == id;
      }
    }
  }

  lemma OnceMore(ts: seq<Tlv>, t: Tlv)
    ensures Once(ts + [t]) <==> Once(ts) && (Defined(t.id) ==> Value(ts, t.id).None?)
  {
    ValueStands(ts, t.id);
    var us := ts + [t];
    assert forall i :: 0 <= i < |ts| ==> us[i] == ts[i];
    assert us[|ts|] == t;
  }

  lemma MeetsMore(ts: seq<Tlv>, t: Tlv, fs: bool)
    ensures EachMeets(ts + [t], fs)
            <==> EachMeets(ts, fs) && (Defined(t.id) ==> Meets(t) && (fs || FromAnyone(t.id)))
  {
    hide Meets;
    var us := ts + [t];
    assert forall i :: 0 <= i < |ts| ==> us[i] == ts[i];
    assert us[|ts|] == t;
  }

  lemma ValueTaken(p: Params, t: Tlv)
    requires Defined(t.id)
    ensures SetValue(p, t.id, t.val).Some? <==> Meets(t)
  {
    hide Varint.Decode;
  }

  lemma IntegerKept(p: Params, ts: seq<Tlv>, t: Tlv, id: nat)
    requires Defined(t.id) && Meets(t) && SetValue(p, t.id, t.val).Some?
    requires id in INTEGERS && IntOf(p, id) == Integer(ts, id)
    ensures IntOf(SetValue(p, t.id, t.val).value, id) == Integer(ts + [t], id)
  {
    hide Varint.Decode, Value, InBounds, PreferredOk, Range;
    ValueAppend(ts, t, id);
  }

  lemma OtherKept(p: Params, ts: seq<Tlv>, t: Tlv)
    requires Defined(t.id) && Meets(t) && Reflects(p, ts) && SetValue(p, t.id, t.val).Some?
    ensures var q := SetValue(p, t.id, t.val).value;
            && q.origDcid == Value(ts + [t], 0x00) && q.initScid == Value(ts + [t], 0x0f)
            && q.retryScid == Value(ts + [t], 0x10) && q.resetToken == Value(ts + [t], 0x02)
            && (q.disableMigration <==> Value(ts + [t], 0x0c).Some?)
  {
    hide Value, IntValue, InBounds, PreferredOk, Range, Number, Integer, IntOf, SetInt;
    ValueAppend(ts, t, 0x00);
    ValueAppend(ts, t, 0x0f);
    ValueAppend(ts, t, 0x10);
    ValueAppend(ts, t, 0x02);
    ValueAppend(ts, t, 0x0c);
  }

  lemma ValueKept(p: Params, ts: seq<Tlv>, t: Tlv)
    requires Defined(t.id) && Meets(t) && Reflects(p, ts) && SetValue(p, t.id, t.val).Some?
    ensures Reflects(SetValue(p, t.id, t.val).value, ts + [t])
  {
    hide SetValue, Value, Meets, Integer, IntOf;
    OtherKept(p, ts, t);
    forall id | id in INTEGERS ensures IntOf(SetValue(p, t.id, t.val).value, id) == Integer(ts + [t], id) {
      IntegerKept(p, ts, t, id);
    }
  }

  lemma StrangerKept(p: Params, ts: seq<Tlv>, t: Tlv)
    requires !Defined(t.id) && Reflects(p, ts)
    ensures Reflects(p, ts + [t])
  {
    hide Varint.Decode, Value;
    forall id: nat ensures Value(ts + [t], id) == if t.id == id then Some(t.val) else Value(ts, id) {
      ValueAppend(ts, t, id);
    }
    forall id | id in INTEGERS
      ensures IntOf(p, id) == Integer(ts + [t], id)
    {
      assert IntOf(p, id) == Integer(ts, id);
    }
  }

  /** The decoder has taken exactly `ts`. */
  ghost predicate Stands(st: State, ts: seq<Tlv>) {
    Reflects(st.p, ts) && forall id: nat :: id in st.seen <==> Defined(id) && Value(ts, id).Some?
  }

  lemma TakesMore(st: State, ts: seq<Tlv>, t: Tlv, fs: bool)
    requires Stands(st, ts)
    ensures Take(st, t, fs).Some?
            <==> (Defined(t.id) ==> Value(ts, t.id).None? && Meets(t) && (fs || FromAnyone(t.id)))
    ensures Take(st, t, fs).Some? ==> Stands(Take(st, t, fs).value, ts + [t])
  {
    hide Reflects, SetValue, Meets, Value;
    assert Known(t.id) <==> Defined(t.id);
    forall id: nat ensures Value(ts + [t], id) == if t.id == id then Some(t.val) else Value(ts, id) {
      ValueAppend(ts, t, id);
    }
    if !Defined(t.id) {
      StrangerKept(st.p, ts, t);
    } else {
      ValueTaken(st.p, t);
      if SetValue(st.p, t.id, t.val).Some? {
        ValueKept(st.p, ts, t);
      }
    }
  }

  lemma AtFirst()
    ensures Stands(State(DEFAULTS, {}), [])
  {
  }

  lemma {:induction false} TakesExactly(ts: seq<Tlv>, fs: bool)
    ensures var r := TakeAll(State(DEFAULTS, {}), ts, fs);
            && (r.Some? <==> Once(ts) && EachMeets(ts, fs))
            && (r.Some? ==> Stands(r.value, ts))
    decreases |ts|
  {
    hide Take, TakeAll, Stands, Value, Meets, Once, EachMeets;
    var st := State(DEFAULTS, {});
    if ts == [] {
      AtFirst();
      NoneYet(fs);
    } else {
      var front, t := ts[..|ts| - 1], ts[|ts| - 1];
      assert ts == front + [t];
      TakesExactly(front, fs);
      TakeConcat(st, front, [t], fs);
      OnceMore(front, t);
      MeetsMore(front, t, fs);
      var r := TakeAll(st, front, fs);
      if r.Some? {
        TakeOne(r.value, t, fs);
        TakesMore(r.value, front, t, fs);
      }
    }
  }

  lemma NoneYet(fs: bool)
    ensures Once([]) && EachMeets([], fs) && TakeAll(State(DEFAULTS, {}), [], fs) == Some(State(DEFAULTS, {}))
  {
  }

  lemma TakeOne(st: State, t: Tlv, fs: bool)
    ensures TakeAll(st, [t], fs) == Take(st, t, fs)
  {
    hide Take;
    assert [t][1..] == [];
  }

  /** Any bytes at all: they are taken if and only if they are a list of parameters in which no defined
      one comes twice, each has a value it may have, a client states none that only a server has, and
      what the handshake is checked against is there. What is then known of the peer is what the list
      states, each integer it leaves out at its default. */
  lemma ParamsExactly(s: ByteSeq, fs: bool)
    ensures Decode(s, fs).Some? <==> Parse(s).Some? && Acceptable(Parse(s).value, fs)
    ensures Decode(s, fs).Some? ==> Reflects(Decode(s, fs).value, Parse(s).value)
  {
    hide TakeWire, TakeAll, Parse, Once, EachMeets, Value;
    TakesParsed(State(DEFAULTS, {}), s, fs);
    if Parse(s).Some? {
      TakesExactly(Parse(s).value, fs);
    }
  }
}
