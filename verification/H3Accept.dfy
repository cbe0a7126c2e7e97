/** What a request or response stream may carry, frame by frame, and what is reported of it: said of the
    frames, whatever their types (sections 4.1, 7.2 and 9 of RFC 9114). */
module H3Accept {
  import opened Bytes
  import opened H3Frame
  import opened H3Msg
  import Qpack
  import Varint

  datatype Sent = Sent(ty: nat, payload: ByteSeq)

  predicate Writable(f: Sent) { f.ty <= Varint.VARINT_MAX && |f.payload| <= Varint.VARINT_MAX }

  predicate AllWritable(fs: seq<Sent>) { forall i :: 0 <= i < |fs| ==> Writable(fs[i]) }

  function Wire(fs: seq<Sent>): ByteSeq
    requires AllWritable(fs)
  {
    if fs == [] then [] else FrameBytes(fs[0].ty, fs[0].payload) + Wire(fs[1..])
  }

  // ----- What the frames before one amount to

  predicate HasFields(fs: seq<Sent>) { exists i :: 0 <= i < |fs| && fs[i].ty == HEADERS }

  predicate HasData(fs: seq<Sent>) { exists i :: 0 <= i < |fs| && fs[i].ty == DATA }

  /** A field section after body ends the message. */
  predicate Ended(fs: seq<Sent>) { exists i, j :: 0 <= i < j < |fs| && fs[i].ty == DATA && fs[j].ty == HEADERS }

  function DataIn(f: Sent): ByteSeq { if f.ty == DATA then f.payload else [] }

  function Data(fs: seq<Sent>): ByteSeq {
    if fs == [] then [] else Data(fs[..|fs| - 1]) + DataIn(fs[|fs| - 1])
  }

  /** The error a frame calls for after others, zero being none. Types that nobody has named are none. */
  function Fault(c: Config, pre: seq<Sent>, f: Sent): nat {
    if f.ty == 0x00 then
      if !HasFields(pre) || Ended(pre) then 0x105
      else if c.maxBody > 0 && |f.payload| > 0 && |Data(pre)| + |f.payload| > c.maxBody then 0x107 else 0
    else if f.ty == 0x01 then
      if Ended(pre) then 0x105
      else if |f.payload| > c.limits.maxSize then 0x107
      else SectionFault(Qpack.DecodeSection(f.payload, c.limits))
    else if f.ty == 0x05 then (if c.server then 0x105 else 0x108)
    else if f.ty in {0x02, 0x03, 0x04, 0x06, 0x07, 0x08, 0x09, 0x0d} then 0x105
    else 0
  }

  function SectionFault(d: Qpack.Decoded): nat { if d.Failed? then d.error else 0 }

  predicate Accepts(c: Config, fs: seq<Sent>) { forall n :: 0 <= n < |fs| ==> Fault(c, fs[..n], fs[n]) == 0 }

  /** The report of a frame, if it is a field section: a head before any body, trailers after. */
  function ReportOf(c: Config, pre: seq<Sent>, f: Sent): seq<Event> {
    if f.ty != HEADERS then []
    else
      var r := Qpack.DecodeSection(f.payload, c.limits);
      if r.Failed? then [] else [if HasData(pre) then Trailers(r.fields) else Head(r.fields)]
  }

  function Reports(c: Config, fs: seq<Sent>): seq<Event> {
    if fs == [] then [] else Reports(c, fs[..|fs| - 1]) + ReportOf(c, fs[..|fs| - 1], fs[|fs| - 1])
  }

  // ----- One more frame

  lemma OneMore(pre: seq<Sent>, f: Sent)
    ensures HasFields(pre + [f]) <==> HasFields(pre) || f.ty == HEADERS
    ensures HasData(pre + [f]) <==> HasData(pre) || f.ty == DATA
    ensures Ended(pre + [f]) <==> Ended(pre) || (HasData(pre) && f.ty == HEADERS)
    ensures Data(pre + [f]) == Data(pre) + DataIn(f)
  {
    var all, n := pre + [f], |pre|;
    assert all[n] == f && all[..n] == pre && forall i :: 0 <= i < n ==> all[i] == pre[i];
    if HasData(pre) && f.ty == HEADERS {
      var i :| 0 <= i < n && pre[i].ty == DATA;
      assert 0 <= i < n < |all| && all[i].ty == DATA && all[n].ty == HEADERS;
    }
    if Ended(pre) {
      var i, j :| 0 <= i < j < n && pre[i].ty == DATA && pre[j].ty == HEADERS;
      assert 0 <= i < j < |all| && all[i].ty == DATA && all[j].ty == HEADERS;
    }
    if i, j :| 0 <= i < j < |all| && all[i].ty == DATA && all[j].ty == HEADERS {
      assert pre[i].ty == DATA;
      assert j < n ==> pre[j].ty == HEADERS;
    }
  }

  lemma OneMoreReport(c: Config, pre: seq<Sent>, f: Sent)
    ensures Reports(c, pre + [f]) == Reports(c, pre) + ReportOf(c, pre, f)
    ensures Accepts(c, pre + [f]) <==> Accepts(c, pre) && Fault(c, pre, f) == 0
  {
    hide Fault, ReportOf;
    var all, n := pre + [f], |pre|;
    assert all[..n] == pre && all[n] == f;
    assert forall i :: 0 <= i < n ==> all[..i] == pre[..i] && all[i] == pre[i];
  }

  // ----- The reader at the end of a frame

  /** What the reader remembers is what the frames amount to. */
  predicate Remembers(m: Msg, pre: seq<Sent>) {
    && AtBoundary(m) && m.err == 0
    && m.headDone == HasFields(pre) && m.bodyStarted == HasData(pre) && m.trailersDone == Ended(pre)
    && m.bodyTotal == |Data(pre)| && (HasData(pre) ==> HasFields(pre))
  }

  /** A run that failed on the spot. */
  predicate Refuses(d: Run, err: nat) { d.m.err == err != 0 && d.m.fr.bad && d.events == [] }

  lemma StopsAt(c: Config, m: Msg, src: ByteSeq)
    requires Step(c, m, src).stop.Failed?
    ensures var a := Step(c, m, src);
            Drive(c, m, src) == Run(a.m, a.rest, [], a.stop == Failed(true))
  {
    hide Step;
    FailedStep(c, m, src);
  }

  lemma StepsOn(c: Config, m: Msg, src: ByteSeq)
    requires Step(c, m, src).stop == Go && Step(c, m, src).out == []
    ensures var a := Step(c, m, src); Drive(c, m, src) == Drive(c, a.m, a.rest)
  {
    hide Step;
    Unroll(c, m, src);
    var a := Step(c, m, src);
    PrependNothing(Drive(c, a.m, a.rest));
  }

  /** The state in which the payload of a frame that may come is read. */
  function Opened(m: Msg, f: Sent): Msg {
    m.(fr := Frame(f.ty, |f.payload|, |f.payload|, true, false), inFields := f.ty == HEADERS,
       bodyStarted := m.bodyStarted || f.ty == DATA)
  }

  /** The faults a header shows. */
  function HeaderFault(c: Config, m: Msg, f: Sent): nat {
    var e := FrameAllowed(c.server, m.headDone, m.trailersDone, f.ty);
    if e != 0 then e else if f.ty == HEADERS && |f.payload| > c.limits.maxSize then EXCESSIVE_LOAD else 0
  }

  lemma HeaderRead(c: Config, m: Msg, f: Sent, rest: ByteSeq)
    requires AtBoundary(m) && Writable(f)
    ensures var d := Drive(c, m, FrameBytes(f.ty, f.payload) + rest);
            if HeaderFault(c, m, f) != 0 then Refuses(d, HeaderFault(c, m, f))
            else d == Drive(c, Opened(m, f), f.payload + rest)
  {
    hide Step, Drive, FrameBytes;
    HeaderStep(c, m, f.ty, f.payload, rest);
    var src := FrameBytes(f.ty, f.payload) + rest;
    if HeaderFault(c, m, f) != 0 {
      StopsAt(c, m, src);
    } else {
      StepsOn(c, m, src);
    }
  }

  /** The payload is past, and the frame complete. */
  lemma PayloadPast(c: Config, m: Msg, f: Sent, rest: ByteSeq)
    requires AtBoundary(m) && f.ty != HEADERS && f.ty != DATA
    ensures Drive(c, Opened(m, f), f.payload + rest)
            == Drive(c, m.(fr := Frame(f.ty, |f.payload|, 0, false, false)), rest)
  {
    hide Step, Drive;
    var m1 := Opened(m, f);
    if f.payload != [] {
      WholePayload(c, m1, f.payload, rest);
      StepsOn(c, m1, f.payload + rest);
    } else {
      assert f.payload + rest == rest;
    }
    var m2 := m1.(fr := m1.fr.(remain := 0));
    CompleteStep(c, m2, rest);
    StepsOn(c, m2, rest);
  }

  lemma FieldsPast(c: Config, m: Msg, f: Sent, rest: ByteSeq)
    requires AtBoundary(m) && f.ty == HEADERS
    ensures var d := Drive(c, Opened(m, f), f.payload + rest);
            var r := Qpack.DecodeSection(f.payload, c.limits);
            if r.Failed? then r.error != 0 ==> Refuses(d, r.error)
            else d == Prepend([if m.bodyStarted then Trailers(r.fields) else Head(r.fields)],
                              Drive(c, SectionRead(m, |f.payload|, r.fields), rest))
  {
    hide Step, Drive, Prepend, Qpack.DecodeSection;
    var m1 := Opened(m, f);
    if f.payload != [] {
      WholePayload(c, m1, f.payload, rest);
      StepsOn(c, m1, f.payload + rest);
      assert [] + f.payload == f.payload;
    } else {
      assert f.payload + rest == rest;
    }
    var m2 := m1.(fr := m1.fr.(remain := 0), fields := f.payload);
    CompleteStep(c, m2, rest);
    if Qpack.DecodeSection(f.payload, c.limits).Fields? {
      Unroll(c, m2, rest);
    } else {
      StopsAt(c, m2, rest);
    }
  }

  lemma DataPast(c: Config, m: Msg, f: Sent, rest: ByteSeq)
    requires AtBoundary(m) && f.ty == DATA
    ensures var d := Drive(c, Opened(m, f), f.payload + rest);
            if c.maxBody > 0 && |f.payload| > 0 && m.bodyTotal + |f.payload| > c.maxBody then Refuses(d, EXCESSIVE_LOAD)
            else
              d == Prepend(if f.payload == [] then [] else [Body(f.payload)], Drive(c, DataDone(m, |f.payload|), rest))
  {
    hide Step, Drive, Prepend;
    var m1 := Opened(m, f);
    if f.payload == [] {
      assert f.payload + rest == rest;
      CompleteStep(c, m1, rest);
      StepsOn(c, m1, rest);
      PrependNothing(Drive(c, DataDone(m, 0), rest));
    } else {
      WholePayload(c, m1, f.payload, rest);
      if c.maxBody > 0 && m.bodyTotal + |f.payload| > c.maxBody {
        StopsAt(c, m1, f.payload + rest);
      } else {
        Unroll(c, m1, f.payload + rest);
        var m2 := m1.(fr := m1.fr.(remain := 0), bodyTotal := m.bodyTotal + |f.payload|);
        CompleteStep(c, m2, rest);
        StepsOn(c, m2, rest);
      }
    }
  }

  lemma DecodeErrors(s: ByteSeq, lim: Qpack.Limits)
    requires lim.maxSize < Qpack.U32
    ensures Qpack.DecodeSection(s, lim).Failed? ==> Qpack.DecodeSection(s, lim).error != 0
  {
    hide Qpack.DecodeLines;
    var a := Qpack.PrefixInt.Decode(s, 8);
    if a.Some? {
      var b := Qpack.PrefixInt.Decode(s[a.value.width..], 7);
      if b.Some? {
        LineErrors(s[a.value.width..][b.value.width..], [], 0, lim);
      }
    }
  }

  lemma {:induction false} LineErrors(s: ByteSeq, done: seq<Qpack.Field>, size: nat, lim: Qpack.Limits)
    requires lim.maxSize < Qpack.U32
    ensures Qpack.DecodeLines(s, done, size, lim).Failed? ==> Qpack.DecodeLines(s, done, size, lim).error != 0
    decreases |s|
  {
    hide Qpack.DecodeLine, Qpack.ValidName, Qpack.ValidValue;
    if s != [] {
      var l := Qpack.DecodeLine(s, lim.maxSize);
      if l.Some? {
        var (name, value, w) := l.value;
        var more := size + |name| + |value| + 32;
        if Qpack.ValidName(name) && Qpack.ValidValue(value) && |done| + 1 <= lim.maxCount && more <= lim.maxSize {
          LineErrors(s[w..], done + [Qpack.Field(name, value)], more, lim);
        }
      }
    }
  }

  /** What a frame that calls for no error makes of the reader. */
  lemma FrameTaken(c: Config, m: Msg, pre: seq<Sent>, f: Sent, rest: ByteSeq) returns (m': Msg, out: seq<Event>)
    requires Remembers(m, pre) && Writable(f) && Fault(c, pre, f) == 0
    ensures Remembers(m', pre + [f])
    ensures Drive(c, m, FrameBytes(f.ty, f.payload) + rest) == Prepend(out, Drive(c, m', rest))
    ensures Sections(out) == ReportOf(c, pre, f) && BodyOf(out) == DataIn(f)
  {
    hide Drive, Prepend, FrameBytes, Qpack.DecodeSection, HasFields, HasData, Ended, Data, Sections, BodyOf;
    OneMore(pre, f);
    HeaderRead(c, m, f, rest);
    NothingReported();
    if f.ty == HEADERS {
      FieldsPast(c, m, f, rest);
      DecodeErrors(f.payload, c.limits);
      var fs := Qpack.DecodeSection(f.payload, c.limits).fields;
      m', out := SectionRead(m, |f.payload|, fs), [if m.bodyStarted then Trailers(fs) else Head(fs)];
      SectionReported(out[0], []);
      assert [out[0]] + [] == out;
    } else if f.ty == DATA {
      DataPast(c, m, f, rest);
      m', out := DataDone(m, |f.payload|), if f.payload == [] then [] else [Body(f.payload)];
      OneRun(f.payload);
    } else {
      PayloadPast(c, m, f, rest);
      m', out := m.(fr := Frame(f.ty, |f.payload|, 0, false, false)), [];
      PrependNothing(Drive(c, m', rest));
    }
  }

  lemma FrameRefused(c: Config, m: Msg, pre: seq<Sent>, f: Sent, rest: ByteSeq)
    requires Remembers(m, pre) && Writable(f) && Fault(c, pre, f) != 0
    ensures Refuses(Drive(c, m, FrameBytes(f.ty, f.payload) + rest), Fault(c, pre, f))
  {
    hide Drive, FrameBytes, Qpack.DecodeSection, HasFields, HasData, Ended, Data;
    HeaderRead(c, m, f, rest);
    if f.ty == HEADERS {
      FieldsPast(c, m, f, rest);
      DecodeErrors(f.payload, c.limits);
    } else if f.ty == DATA {
      DataPast(c, m, f, rest);
    }
  }

  // ----- All of them

  /** What a run over all the frames from here comes to, those before them having been taken. */
  ghost predicate Comes(c: Config, d: Run, m: Msg, pre: seq<Sent>, fs: seq<Sent>) {
    if Accepts(c, pre + fs) then
      && d.m.err == 0 && !d.m.fr.bad && d.rest == [] && Remembers(d.m, pre + fs)
      && Reports(c, pre) + Sections(d.events) == Reports(c, pre + fs)
      && Data(pre) + BodyOf(d.events) == Data(pre + fs)
    else
      exists n :: 0 <= n < |fs| && Accepts(c, pre + fs[..n]) && Fault(c, pre + fs[..n], fs[n]) != 0
        && d.m.err == Fault(c, pre + fs[..n], fs[n]) && d.m.fr.bad
        && Reports(c, pre) + Sections(d.events) == Reports(c, pre + fs[..n])
        && Data(pre) + BodyOf(d.events) == Data(pre + fs[..n])
  }

  lemma {:induction false} FramesRead(c: Config, m: Msg, pre: seq<Sent>, fs: seq<Sent>)
    requires Remembers(m, pre) && Accepts(c, pre) && AllWritable(fs)
    ensures Comes(c, Drive(c, m, Wire(fs)), m, pre, fs)
    decreases |fs|
  {
    hide Drive, FrameBytes, Remembers, Accepts, Fault, Reports, Data, Sections, BodyOf;
    NothingReported();
    if fs == [] {
      assert pre + fs == pre;
      Starves(c, m, pre);
      assert Reports(c, pre) + [] == Reports(c, pre) && Data(pre) + [] == Data(pre);
    } else {
      var f, more := fs[0], fs[1..];
      OneMoreReport(c, pre, f);
      OneMore(pre, f);
      if Fault(c, pre, f) != 0 {
        FrameRefused(c, m, pre, f, Wire(more));
        assert pre + fs[..0] == pre;
        assert Reports(c, pre) + [] == Reports(c, pre) && Data(pre) + [] == Data(pre);
        FaultIsFinal(c, pre, fs, 0);
      } else {
        var m', out := FrameTaken(c, m, pre, f, Wire(more));
        FramesRead(c, m', pre + [f], more);
        assert pre + [f] + more == pre + fs;
        ComesOn(c, Drive(c, m', Wire(more)), out, m, m', pre, fs);
      }
    }
  }

  lemma Starves(c: Config, m: Msg, pre: seq<Sent>)
    requires Remembers(m, pre)
    ensures Drive(c, m, []) == Run(m, [], [], false) && m.err == 0 && !m.fr.bad
  {
    BoundaryStarves(c, m);
  }

  lemma FaultIsFinal(c: Config, pre: seq<Sent>, fs: seq<Sent>, n: nat)
    requires n < |fs| && Fault(c, pre + fs[..n], fs[n]) != 0
    ensures !Accepts(c, pre + fs)
  {
    hide Fault;
    var all, k := pre + fs, |pre| + n;
    assert all[..k] == pre + fs[..n] && all[k] == fs[n];
  }

  lemma ComesOn(c: Config, e: Run, out: seq<Event>, m: Msg, m': Msg, pre: seq<Sent>, fs: seq<Sent>)
    requires fs != [] && Comes(c, e, m', pre + [fs[0]], fs[1..])
    requires Sections(out) == ReportOf(c, pre, fs[0]) && BodyOf(out) == DataIn(fs[0])
    ensures Comes(c, Prepend(out, e), m, pre, fs)
  {
    hide Remembers, Accepts, Fault, Reports, ReportOf, DataIn, Data, Sections, BodyOf;
    var f, more := fs[0], fs[1..];
    assert pre + [f] + more == pre + fs;
    OneMore(pre, f);
    OneMoreReport(c, pre, f);
    SectionsConcat(out, e.events);
    BodyConcat(out, e.events);
    assert Reports(c, pre) + (Sections(out) + Sections(e.events))
        == Reports(c, pre) + Sections(out) + Sections(e.events);
    assert Data(pre) + (BodyOf(out) + BodyOf(e.events)) == Data(pre) + BodyOf(out) + BodyOf(e.events);
    if !Accepts(c, pre + fs) {
      var n :| 0 <= n < |more| && Accepts(c, pre + [f] + more[..n]) && Fault(c, pre + [f] + more[..n], more[n]) != 0
        && e.m.err == Fault(c, pre + [f] + more[..n], more[n]) && e.m.fr.bad
        && Reports(c, pre + [f]) + Sections(e.events) == Reports(c, pre + [f] + more[..n])
        && Data(pre + [f]) + BodyOf(e.events) == Data(pre + [f] + more[..n]);
      assert pre + [f] + more[..n] == pre + fs[..n + 1] && more[n] == fs[n + 1];
    }
  }

  /** What a stream of any frames, delivered in any pieces, comes to. Without a fault: no error, nothing
      left over, a report for each field section, a head before any body and trailers after it, and the
      body. With one: the error the first faulty frame calls for, and the reports of those before it. So
      a frame of a type nobody has named changes nothing. */
  lemma FramesExactly(c: Config, fs: seq<Sent>, chunks: seq<ByteSeq>)
    requires AllWritable(fs) && Join(chunks) == Wire(fs)
    ensures var g := Feed(c, START, chunks);
            && (g.m.err == 0 <==> Accepts(c, fs))
            && (Accepts(c, fs) ==>
                  && !g.m.fr.bad && g.rest == [] && Sections(g.events) == Reports(c, fs) && BodyOf(g.events) == Data(fs))
            && (forall n :: 0 <= n < |fs| && FaultyAt(c, fs, n) ==>
                  && g.m.err == Fault(c, fs[..n], fs[n]) && g.m.fr.bad && Sections(g.events) == Reports(c, fs[..n])
                  && Data(fs[..n]) <= BodyOf(g.events))
  {
    hide Drive, Feed, Join, Accepts, Fault, Wire, Sections, BodyOf, FaultyAt;
    NothingYet(c);
    FramesRead(c, INIT, [], fs);
    FragmentationIndependence(c, chunks);
    var d := Drive(c, INIT, Join(chunks));
    FromTheStart(c, d, fs);
  }

  /** The first faulty frame. */
  predicate FaultyAt(c: Config, fs: seq<Sent>, n: nat)
    requires n < |fs|
  {
    Accepts(c, fs[..n]) && Fault(c, fs[..n], fs[n]) != 0
  }

  lemma FromTheStart(c: Config, d: Run, fs: seq<Sent>)
    requires Comes(c, d, INIT, [], fs)
    ensures d.m.err == 0 <==> Accepts(c, fs)
    ensures Accepts(c, fs) ==>
              !d.m.fr.bad && d.rest == [] && Sections(d.events) == Reports(c, fs) && BodyOf(d.events) == Data(fs)
    ensures forall n :: 0 <= n < |fs| && FaultyAt(c, fs, n) ==>
              && d.m.err == Fault(c, fs[..n], fs[n]) && d.m.fr.bad && Sections(d.events) == Reports(c, fs[..n])
              && BodyOf(d.events) == Data(fs[..n])
  {
    hide Accepts, Fault, Reports, Data, Sections, BodyOf, Remembers;
    NothingYet(c);
    assert [] + fs == fs && [] + Sections(d.events) == Sections(d.events) && [] + BodyOf(d.events) == BodyOf(d.events);
    forall n | 0 <= n < |fs| && FaultyAt(c, fs, n)
      ensures !Accepts(c, fs) && forall k :: 0 <= k < |fs| && FaultyAt(c, fs, k) ==> k == n
    {
      assert [] + fs[..n] == fs[..n];
      FaultIsFinal(c, [], fs, n);
      forall k | 0 <= k < |fs| && FaultyAt(c, fs, k) ensures k == n {
        if k < n {
          NoneBefore(c, fs, k, n);
        } else if n < k {
          NoneBefore(c, fs, n, k);
        }
      }
    }
    if !Accepts(c, fs) {
      var n :| 0 <= n < |fs| && Accepts(c, [] + fs[..n]) && Fault(c, [] + fs[..n], fs[n]) != 0
        && d.m.err == Fault(c, [] + fs[..n], fs[n]) && d.m.fr.bad
        && Reports(c, []) + Sections(d.events) == Reports(c, [] + fs[..n])
        && Data([]) + BodyOf(d.events) == Data([] + fs[..n]);
      assert [] + fs[..n] == fs[..n];
      assert FaultyAt(c, fs, n);
    }
  }

  lemma NoneBefore(c: Config, fs: seq<Sent>, k: nat, n: nat)
    requires k < n <= |fs| && Accepts(c, fs[..n])
    ensures Fault(c, fs[..k], fs[k]) == 0
  {
    hide Fault;
    assert fs[..n][..k] == fs[..k] && fs[..n][k] == fs[k];
  }

  lemma NothingYet(c: Config)
    ensures Remembers(INIT, []) && Accepts(c, []) && Reports(c, []) == [] && Data([]) == []
  {
  }

  /** In particular: a frame of a type that is neither named nor reserved, put in anywhere, changes neither
      the verdict nor the reports nor the body. */
  lemma StrangersIgnored(c: Config, a: seq<Sent>, f: Sent, b: seq<Sent>)
    requires f.ty > 0x09 && f.ty != 0x0d
    ensures Accepts(c, a + [f] + b) <==> Accepts(c, a + b)
    ensures Reports(c, a + [f] + b) == Reports(c, a + b) && Data(a + [f] + b) == Data(a + b)
    decreases |b|
  {
    hide Fault, ReportOf;
    if b == [] {
      assert a + [f] + b == a + [f] && a + b == a;
      OneMore(a, f);
      OneMoreReport(c, a, f);
      NoFault(c, a, f);
    } else {
      var n := |b| - 1;
      var x, last := b[..n], b[n];
      StrangersIgnored(c, a, f, x);
      assert a + [f] + b == (a + [f] + x) + [last] && a + b == (a + x) + [last];
      OneMore(a + [f] + x, last);
      OneMore(a + x, last);
      OneMoreReport(c, a + [f] + x, last);
      OneMoreReport(c, a + x, last);
      SameFault(c, a, f, x, last);
    }
  }

  lemma NoFault(c: Config, pre: seq<Sent>, f: Sent)
    requires f.ty > 0x09 && f.ty != 0x0d
    ensures Fault(c, pre, f) == 0 && ReportOf(c, pre, f) == [] && DataIn(f) == []
  {
  }

  lemma {:induction false} SameHistory(a: seq<Sent>, f: Sent, b: seq<Sent>)
    requires f.ty > 0x09 && f.ty != 0x0d
    ensures HasFields(a + [f] + b) == HasFields(a + b) && HasData(a + [f] + b) == HasData(a + b)
    ensures Ended(a + [f] + b) == Ended(a + b) && Data(a + [f] + b) == Data(a + b)
    decreases |b|
  {
    hide HasFields, HasData, Ended, Data;
    if b == [] {
      assert a + [f] + b == a + [f] && a + b == a;
      OneMore(a, f);
      assert Data(a) + [] == Data(a);
    } else {
      var n := |b| - 1;
      var x, last := b[..n], b[n];
      SameHistory(a, f, x);
      assert a + [f] + b == (a + [f] + x) + [last] && a + b == (a + x) + [last];
      OneMore(a + [f] + x, last);
      OneMore(a + x, last);
    }
  }

  lemma SameFault(c: Config, a: seq<Sent>, f: Sent, x: seq<Sent>, last: Sent)
    requires f.ty > 0x09 && f.ty != 0x0d
    ensures Fault(c, a + [f] + x, last) == Fault(c, a + x, last)
    ensures ReportOf(c, a + [f] + x, last) == ReportOf(c, a + x, last)
  {
    hide HasFields, HasData, Ended, Data, Qpack.DecodeSection;
    SameHistory(a, f, x);
  }
}
