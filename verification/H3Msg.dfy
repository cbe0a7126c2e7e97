/** The frame layer of one request or response stream, and the field sections on it
    (sections 4.1 and 7.1 of RFC 9114). */
module H3Msg {
  import opened Bytes
  import opened H3Frame
  import Qpack
  import Varint

  const FRAME_UNEXPECTED := 0x105
  const EXCESSIVE_LOAD := 0x107
  const ID_ERROR := 0x108

  datatype AnyConfig = Config(server: bool, limits: Qpack.Limits, maxBody: nat)

  /** The limit on a section is a 32-bit count; a body limit of zero means none. */
  type Config = c: AnyConfig | c.limits.maxSize < Qpack.U32
    witness Config(false, Qpack.Limits(0, 0), 0)

  datatype Msg = Msg(
    fr: Frame,
    fields: ByteSeq,            // the field section being accumulated
    inFields: bool,
    headers: seq<Qpack.Field>,  // the last section decoded
    bodyTotal: nat,
    bodyStarted: bool,          // a DATA frame has been seen
    headDone: bool,             // a section has been reported
    trailersDone: bool,
    err: nat)

  const INIT := Msg(FRAME_INIT, [], false, [], 0, false, false, false, 0)

  datatype Event = Head(fields: seq<Qpack.Field>) | Body(bytes: ByteSeq)
                 | Trailers(fields: seq<Qpack.Field>)

  /** Why a step is the last: nothing to read, or a failure, which may be a body over its limit. */
  datatype Stop = Go | Starved | Failed(overBody: bool)

  datatype Advance = Advance(m: Msg, rest: ByteSeq, out: seq<Event>, stop: Stop)

  /** The error, if any, that a frame type calls for on a request stream. */
  function FrameAllowed(server: bool, headDone: bool, trailersDone: bool, ty: nat): nat {
    if ty == HEADERS then (if trailersDone then FRAME_UNEXPECTED else 0)
    else if ty == DATA then (if headDone && !trailersDone then 0 else FRAME_UNEXPECTED)
    else if ty == PUSH_PROMISE then (if server then FRAME_UNEXPECTED else ID_ERROR)
    else if ty in {SETTINGS, GOAWAY, MAX_PUSH_ID, CANCEL_PUSH} then FRAME_UNEXPECTED
    else if ty in {0x02, 0x06, 0x08, 0x09} then FRAME_UNEXPECTED
    else 0
  }

  function Fail(m: Msg, err: nat): Msg {
    m.(err := err, fr := m.fr.(bad := true))
  }

  function OnHeader(c: Config, m: Msg, rest: ByteSeq): Advance {
    var err := FrameAllowed(c.server, m.headDone, m.trailersDone, m.fr.ty);
    if err != 0 then Advance(Fail(m, err), rest, [], Failed(false))
    else
      var m := m.(fields := [], inFields := m.fr.ty == HEADERS,
                  bodyStarted := m.bodyStarted || m.fr.ty == DATA);
      if m.inFields && m.fr.len > c.limits.maxSize then
        Advance(Fail(m, EXCESSIVE_LOAD), rest, [], Failed(false))
      else Advance(m, rest, [], Go)
  }

  /** A run of payload, which the caller has taken off the stream by the next step. */
  function OnPayload(c: Config, m: Msg, run: ByteSeq, rest: ByteSeq): Advance {
    if m.inFields then Advance(m.(fields := m.fields + run), rest, [], Go)
    else if m.fr.ty != DATA then Advance(m, rest, [], Go)
    else
      var m := m.(bodyTotal := m.bodyTotal + |run|);
      if c.maxBody > 0 && m.bodyTotal > c.maxBody then
        Advance(Fail(m, EXCESSIVE_LOAD), run + rest, [], Failed(true))
      else Advance(m, rest, [Body(run)], Go)
  }

  function OnComplete(c: Config, m: Msg, rest: ByteSeq): Advance {
    if !m.inFields then Advance(m, rest, [], Go)
    else match Qpack.DecodeSection(m.fields, c.limits)
      case Failed(e, fs) =>
        Advance(Fail(m.(inFields := false, fields := [], headers := fs), e), rest, [], Failed(false))
      case Fields(fs) =>
        var m := m.(inFields := false, fields := [], headers := fs);
        if m.bodyStarted then Advance(m.(trailersDone := true), rest, [Trailers(fs)], Go)
        else Advance(m.(headDone := true), rest, [Head(fs)], Go)
  }

  /** One pass of the reader's loop, together with the caller draining what it reports. */
  function Step(c: Config, m: Msg, src: ByteSeq): Advance {
    var (fr, s, r) := FrameStep(m.fr, src);
    var m := m.(fr := fr);
    match r
    case NeedMore => Advance(m, s, [], Starved)
    case Poisoned => Advance(m, s, [], Failed(false))
    case Header => OnHeader(c, m, s)
    case Payload(n) => OnPayload(c, m, s[..n], s[n..])
    case Complete => OnComplete(c, m, s)
  }

  datatype Run = Run(m: Msg, rest: ByteSeq, events: seq<Event>, overBody: bool)

  /** Everything that happens before the reader wants more bytes or has failed. */
  function Drive(c: Config, m: Msg, src: ByteSeq): Run
    decreases |src|, m.fr.inFrame
  {
    StepConsumes(c, m, src);
    var a := Step(c, m, src);
    if a.stop != Go then Run(a.m, a.rest, a.out, a.stop == Failed(true))
    else
      var d := Drive(c, a.m, a.rest);
      d.(events := a.out + d.events)
  }

  lemma StepConsumes(c: Config, m: Msg, src: ByteSeq)
    ensures var a := Step(c, m, src);
            a.stop == Go ==> |a.rest| < |src| || (a.rest == src && m.fr.inFrame && !a.m.fr.inFrame)
    ensures Step(c, m, src).stop == Starved ==> Step(c, m, src) == Advance(m, src, [], Starved)
  {
    hide Qpack.DecodeSection, ReadHeader;
  }

  // ----- What a run amounts to, however its body was split into runs of bytes

  function SectionIn(e: Event): seq<Event> { if e.Body? then [] else [e] }

  function BytesIn(e: Event): ByteSeq { if e.Body? then e.bytes else [] }

  /** The sections reported, in order. */
  function Sections(events: seq<Event>): seq<Event> {
    if events == [] then [] else SectionIn(events[0]) + Sections(events[1..])
  }

  /** The body reported, all runs together. */
  function BodyOf(events: seq<Event>): ByteSeq {
    if events == [] then [] else BytesIn(events[0]) + BodyOf(events[1..])
  }

  lemma {:induction false} SectionsConcat(a: seq<Event>, b: seq<Event>)
    ensures Sections(a + b) == Sections(a) + Sections(b)
  {
    hide SectionIn;
    if a == [] {
      assert a + b == b;
    } else {
      SectionsConcat(a[1..], b);
      assert (a + b)[0] == a[0] && (a + b)[1..] == a[1..] + b;
      var x, y, z := SectionIn(a[0]), Sections(a[1..]), Sections(b);
      assert x + (y + z) == x + y + z;
    }
  }

  lemma {:induction false} BodyConcat(a: seq<Event>, b: seq<Event>)
    ensures BodyOf(a + b) == BodyOf(a) + BodyOf(b)
  {
    hide BytesIn;
    if a == [] {
      assert a + b == b;
    } else {
      BodyConcat(a[1..], b);
      assert (a + b)[0] == a[0] && (a + b)[1..] == a[1..] + b;
      var x, y, z := BytesIn(a[0]), BodyOf(a[1..]), BodyOf(b);
      assert x + (y + z) == x + y + z;
    }
  }

  // ----- Fragmentation

  /** The input ends inside a payload that runs on past it. */
  predicate Partial(m: Msg, src: ByteSeq) {
    !m.fr.bad && m.fr.inFrame && 0 < |src| < m.fr.remain
  }

  lemma StepExtends(c: Config, m: Msg, src: ByteSeq, more: ByteSeq)
    requires !Partial(m, src) && Step(c, m, src).stop != Starved
    ensures var a := Step(c, m, src);
            Step(c, m, src + more) == a.(rest := a.rest + more)
  {
    hide Qpack.DecodeSection, FrameStep;
    FrameExtends(m.fr, src, more);
    var (f, s, r) := FrameStep(m.fr, src);
    if r.Payload? {
      var n := r.avail;
      assert (s + more)[..n] == s[..n] && (s + more)[n..] == s[n..] + more;
      assert s[..n] + (s[n..] + more) == s[..n] + s[n..] + more;
    }
  }

  lemma PayloadStep(c: Config, m: Msg, src: ByteSeq)
    requires !m.fr.bad && m.fr.inFrame && m.fr.remain > 0 && src != []
    ensures var n := Min(|src|, m.fr.remain);
            Step(c, m, src)
            == OnPayload(c, m.(fr := m.fr.(remain := m.fr.remain - n)), src[..n], src[n..])
  {
  }

  lemma FailedStep(c: Config, m: Msg, src: ByteSeq)
    requires Step(c, m, src).stop.Failed?
    ensures var a := Step(c, m, src);
            a.m.fr.bad && a.out == [] && (a.stop.overBody ==> a.m.err == EXCESSIVE_LOAD)
  {
    hide FrameStep, OnHeader, OnPayload, OnComplete;
    PoisonedFrame(m.fr, src);
    var (f, rest, r) := FrameStep(m.fr, src);
    HandlersFail(c, m.(fr := f), rest);
    if r.Payload? {
      PayloadFails(c, m.(fr := f), rest[..r.avail], rest[r.avail..]);
    }
  }

  lemma PoisonedFrame(f: Frame, src: ByteSeq)
    ensures FrameStep(f, src).2 == Poisoned ==> FrameStep(f, src).0.bad
    ensures var (_, rest, r) := FrameStep(f, src); r.Payload? ==> r.avail <= |rest|
  {
    hide ReadHeader;
  }

  lemma HandlersFail(c: Config, m: Msg, rest: ByteSeq)
    ensures var a := OnHeader(c, m, rest); a.stop.Failed? ==> a.m.fr.bad && a.out == [] && !a.stop.overBody
    ensures var a := OnComplete(c, m, rest); a.stop.Failed? ==> a.m.fr.bad && a.out == [] && !a.stop.overBody
  {
    hide Qpack.DecodeSection;
  }

  lemma PayloadFails(c: Config, m: Msg, run: ByteSeq, rest: ByteSeq)
    ensures var a := OnPayload(c, m, run, rest);
            a.stop.Failed? ==> a.m.fr.bad && a.out == [] && (a.stop.overBody ==> a.m.err == EXCESSIVE_LOAD)
  {
  }

  lemma RunsJoin(c: Config, m: Msg, f1: Frame, f2: Frame, x: ByteSeq, y: ByteSeq, rest: ByteSeq)
    requires f1.ty == f2.ty
    ensures var a, w := OnPayload(c, m.(fr := f1), x, []), OnPayload(c, m.(fr := f2), x + y, rest);
            && Sections(a.out) == Sections(w.out) == []
            && (a.stop == Go || (a.stop == Failed(true) && a.out == []))
            && (w.stop == Go || (w.stop == Failed(true) && w.out == []))
            && (a.stop == Go ==>
                  && a.rest == [] && a.m.fr == f1
                  && var b := OnPayload(c, a.m.(fr := f2), y, rest);
                     && b.m == w.m && b.stop == w.stop && Sections(b.out) == []
                     && (w.stop == Go ==>
                           b.rest == w.rest && BodyOf(w.out) == BodyOf(a.out) + BodyOf(b.out)))
            && (w.stop == Go ==> a.stop == Go)
  {
    if m.inFields {
      assert m.fields + (x + y) == m.fields + x + y;
    } else if f1.ty == DATA {
      OneRun(x);
      OneRun(y);
      OneRun(x + y);
    }
  }

  lemma OneRun(x: ByteSeq)
    ensures BodyOf([Body(x)]) == x && Sections([Body(x)]) == []
  {
    assert [Body(x)][1..] == [];
  }

  /** A payload cut in two reads the same as one that was not. */
  lemma PartialJoins(c: Config, m: Msg, src: ByteSeq, more: ByteSeq)
    requires Partial(m, src) && more != []
    ensures var a, w := Step(c, m, src), Step(c, m, src + more);
            && Sections(a.out) == Sections(w.out) == []
            && (a.stop == Go || (a.stop == Failed(true) && a.out == []))
            && (w.stop == Go || (w.stop == Failed(true) && w.out == []))
            && (a.stop == Go ==>
                  && a.rest == []
                  && a.m.fr == m.fr.(remain := m.fr.remain - |src|)
                  && var b := Step(c, a.m, more);
                     && b.m == w.m && b.stop == w.stop && Sections(b.out) == []
                     && (w.stop == Go ==>
                           b.rest == w.rest && BodyOf(w.out) == BodyOf(a.out) + BodyOf(b.out)))
            && (w.stop == Go ==> a.stop == Go)
  {
    hide Step, OnPayload, Sections, BodyOf;
    var n := Min(|src + more|, m.fr.remain);
    var k := n - |src|;
    assert (src + more)[..n] == src + more[..k] && (src + more)[n..] == more[k..];
    assert src[..|src|] == src && src[|src|..] == [];
    PayloadStep(c, m, src);
    PayloadStep(c, m, src + more);
    var f1, f2 := m.fr.(remain := m.fr.remain - |src|), m.fr.(remain := m.fr.remain - n);
    RunsJoin(c, m, f1, f2, src, more[..k], more[k..]);
    var a := Step(c, m, src);
    if a.stop == Go {
      PayloadStep(c, a.m, more);
    }
  }

  /** A finished run has nothing more to say about the same input. */
  lemma {:induction false} DriveStops(c: Config, m: Msg, src: ByteSeq)
    ensures var d := Drive(c, m, src);
            Drive(c, d.m, d.rest) == Run(d.m, d.rest, [], false)
    decreases |src|, m.fr.inFrame
  {
    hide Step;
    StepConsumes(c, m, src);
    var a := Step(c, m, src);
    if a.stop == Go {
      DriveStops(c, a.m, a.rest);
    } else if a.stop.Failed? {
      FailedStep(c, m, src);
      PoisonedStays(c, a.m, a.rest);
    }
  }

  /** A failure is final: whatever arrives afterwards is neither read nor reported. */
  lemma PoisonedStays(c: Config, m: Msg, src: ByteSeq)
    requires m.fr.bad
    ensures Drive(c, m, src) == Run(m, src, [], false)
  {
  }

  /** How a run over the whole of an input relates to runs over its two parts. */
  ghost predicate SplitAgrees(w: Run, d: Run, e: Run) {
    && Sections(w.events) == Sections(d.events + e.events)
    && (w.overBody <==> d.overBody || e.overBody)
    && w.m.err == e.m.err && w.m.fr.bad == e.m.fr.bad
    && (!w.overBody ==>
          w.m == e.m && w.rest == e.rest && BodyOf(w.events) == BodyOf(d.events + e.events))
    && (w.overBody ==> BodyOf(w.events) <= BodyOf(d.events + e.events))
  }

  /** Stopping after any part of the input and resuming when the rest has arrived changes nothing,
      except that a body over its limit is refused later, once its last permitted bytes have been
      reported. */
  lemma {:induction false} DriveSplits(c: Config, m: Msg, a: ByteSeq, b: ByteSeq)
    ensures var d := Drive(c, m, a);
            SplitAgrees(Drive(c, m, a + b), d, Drive(c, d.m, d.rest + b))
    decreases |a|, m.fr.inFrame
  {
    hide Step, Sections, BodyOf;
    StepConsumes(c, m, a);
    var s, d := Step(c, m, a), Drive(c, m, a);
    if b == [] {
      assert a + b == a && d.rest + b == d.rest;
      DriveStops(c, m, a);
      assert d.events + [] == d.events;
    } else if s.stop == Starved {
      assert [] + Drive(c, m, a + b).events == Drive(c, m, a + b).events;
    } else if Partial(m, a) {
      PartialSplits(c, m, a, b);
    } else {
      StepExtends(c, m, a, b);
      if s.stop.Failed? {
        FailedStep(c, m, a);
        PoisonedStays(c, s.m, s.rest + b);
        assert d.events + [] == d.events;
      } else {
        DriveSplits(c, s.m, s.rest, b);
        StepPrepends(s.out, Drive(c, s.m, s.rest + b), Drive(c, s.m, s.rest),
                     Drive(c, d.m, d.rest + b));
      }
    }
  }

  lemma StepPrepends(out: seq<Event>, w: Run, d: Run, e: Run)
    requires SplitAgrees(w, d, e)
    ensures SplitAgrees(w.(events := out + w.events), d.(events := out + d.events), e)
  {
    hide Sections, BodyOf;
    SectionsConcat(out, w.events);
    SectionsConcat(out, d.events + e.events);
    BodyConcat(out, w.events);
    BodyConcat(out, d.events + e.events);
    assert out + d.events + e.events == out + (d.events + e.events);
  }

  lemma PartialSplits(c: Config, m: Msg, a: ByteSeq, b: ByteSeq)
    requires Partial(m, a) && b != []
    ensures var d := Drive(c, m, a);
            SplitAgrees(Drive(c, m, a + b), d, Drive(c, d.m, d.rest + b))
  {
    hide Step, Sections, BodyOf;
    PartialJoins(c, m, a, b);
    var s, w := Step(c, m, a), Step(c, m, a + b);
    var whole, d := Drive(c, m, a + b), Drive(c, m, a);
    if w.stop.Failed? {
      FailedStep(c, m, a + b);
    }
    if s.stop == Go {
      StarvedInPayload(c, s.m);
      assert d == Run(s.m, [], s.out, false) by {
        assert s.out + [] == s.out;
      }
      var t, e := Step(c, s.m, b), Drive(c, s.m, b);
      assert [] + b == b;
      SectionsConcat(s.out, e.events);
      BodyConcat(s.out, e.events);
      if w.stop == Go {
        var tail := Drive(c, w.m, w.rest);
        SectionsConcat(w.out, tail.events);
        SectionsConcat(t.out, tail.events);
        BodyConcat(w.out, tail.events);
        BodyConcat(t.out, tail.events);
      } else {
        FailedStep(c, s.m, b);
        NothingReported();
      }
    } else {
      FailedStep(c, m, a);
      PoisonedStays(c, s.m, s.rest + b);
    }
  }

  lemma NothingReported()
    ensures BodyOf([]) == []
    ensures Sections([]) == []
  {
  }

  lemma StarvedInPayload(c: Config, m: Msg)
    requires !m.fr.bad && m.fr.inFrame && m.fr.remain > 0
    ensures Drive(c, m, []) == Run(m, [], [], false)
  {
  }

  /** A stream delivered in pieces: each piece is added to what the reader left behind. */
  function Feed(c: Config, d: Run, chunks: seq<ByteSeq>): Run
    decreases |chunks|
  {
    if chunks == [] then d
    else
      var e := Drive(c, d.m, d.rest + chunks[0]);
      Feed(c, Run(e.m, e.rest, d.events + e.events, d.overBody || e.overBody), chunks[1..])
  }

  const START := Run(INIT, [], [], false)

  function Join(chunks: seq<ByteSeq>): ByteSeq {
    if chunks == [] then [] else chunks[0] + Join(chunks[1..])
  }

  /** A run over pieces of an input agrees with the run over all of it. */
  ghost predicate Agrees(w: Run, f: Run) {
    && Sections(f.events) == Sections(w.events)
    && (f.overBody <==> w.overBody)
    && f.m.err == w.m.err && f.m.fr.bad == w.m.fr.bad
    && (!w.overBody ==> f.m == w.m && f.rest == w.rest && BodyOf(f.events) == BodyOf(w.events))
    && (w.overBody ==> w.m.fr.bad && BodyOf(w.events) <= BodyOf(f.events))
  }

  lemma {:induction false} OverBodyIsBad(c: Config, m: Msg, src: ByteSeq)
    ensures Drive(c, m, src).overBody ==> Drive(c, m, src).m.fr.bad
    decreases |src|, m.fr.inFrame
  {
    hide Step;
    StepConsumes(c, m, src);
    var a := Step(c, m, src);
    if a.stop == Go {
      OverBodyIsBad(c, a.m, a.rest);
    } else if a.stop.Failed? {
      FailedStep(c, m, src);
    }
  }

  lemma AgreesStep(c: Config, m: Msg, src: ByteSeq, f: Run, chunk: ByteSeq)
    requires Agrees(Drive(c, m, src), f)
    ensures var e := Drive(c, f.m, f.rest + chunk);
            Agrees(Drive(c, m, src + chunk),
                   Run(e.m, e.rest, f.events + e.events, f.overBody || e.overBody))
  {
    hide Step, Sections, BodyOf, Drive;
    var w := Drive(c, m, src);
    DriveSplits(c, m, src, chunk);
    OverBodyIsBad(c, m, src + chunk);
    var e := Drive(c, f.m, f.rest + chunk);
    if w.overBody {
      PoisonedStays(c, w.m, w.rest + chunk);
      PoisonedStays(c, f.m, f.rest + chunk);
      assert w.events + [] == w.events && f.events + [] == f.events;
    } else {
      SectionsConcat(f.events, e.events);
      SectionsConcat(w.events, e.events);
      BodyConcat(f.events, e.events);
      BodyConcat(w.events, e.events);
    }
  }

  lemma {:induction false} FeedAgrees(c: Config, m: Msg, src: ByteSeq, f: Run, chunks: seq<ByteSeq>)
    requires Agrees(Drive(c, m, src), f)
    ensures Agrees(Drive(c, m, src + Join(chunks)), Feed(c, f, chunks))
    decreases |chunks|
  {
    hide Drive, Agrees;
    if chunks == [] {
      assert src + Join(chunks) == src;
    } else {
      AgreesStep(c, m, src, f, chunks[0]);
      var e := Drive(c, f.m, f.rest + chunks[0]);
      FeedAgrees(c, m, src + chunks[0],
                 Run(e.m, e.rest, f.events + e.events, f.overBody || e.overBody), chunks[1..]);
      assert src + Join(chunks) == src + chunks[0] + Join(chunks[1..]);
    }
  }

  /** Every way of cutting a stream into reads gives the same sections and the same failure; the
      same body and the same final state unless the body limit is crossed; and when it is, the
      pieces report at least the body that one read reports. */
  lemma FragmentationIndependence(c: Config, chunks: seq<ByteSeq>)
    ensures Agrees(Drive(c, INIT, Join(chunks)), Feed(c, START, chunks))
  {
    assert Drive(c, INIT, []) == START;
    FeedAgrees(c, INIT, [], START, chunks);
    assert [] + Join(chunks) == Join(chunks);
  }

  // ----- Exactly when the body, too, is independent of how the stream is cut

  lemma {:induction false} BodyWithinLimit(c: Config, m: Msg, src: ByteSeq)
    requires c.maxBody > 0 ==> m.bodyTotal <= c.maxBody
    ensures var d := Drive(c, m, src);
            && (c.maxBody > 0 ==> m.bodyTotal + |BodyOf(d.events)| <= c.maxBody)
            && (!d.overBody ==> d.m.bodyTotal == m.bodyTotal + |BodyOf(d.events)|)
            && (d.overBody ==> c.maxBody > 0)
    decreases |src|, m.fr.inFrame
  {
    hide Step, BodyOf;
    StepConsumes(c, m, src);
    StepCounts(c, m, src);
    var a := Step(c, m, src);
    NothingReported();
    if a.stop == Go {
      BodyWithinLimit(c, a.m, a.rest);
      BodyConcat(a.out, Drive(c, a.m, a.rest).events);
    }
  }

  lemma StepCounts(c: Config, m: Msg, src: ByteSeq)
    ensures var a := Step(c, m, src);
            && (a.stop != Go ==> a.out == [])
            && (a.stop != Failed(true) ==> a.m.bodyTotal == m.bodyTotal + |BodyOf(a.out)|)
            && (a.stop == Failed(true) ==> c.maxBody > 0)
            && (a.stop == Go && c.maxBody > 0 && m.bodyTotal <= c.maxBody ==>
                  a.m.bodyTotal <= c.maxBody)
  {
    hide Qpack.DecodeSection, ReadHeader;
    NothingReported();
    var a := Step(c, m, src);
    if a.out != [] {
      OneRun(if a.out[0].Body? then a.out[0].bytes else []);
      assert a.out[1..] == [];
    }
  }

  lemma {:induction false} FeedWithinLimit(c: Config, f: Run, chunks: seq<ByteSeq>)
    requires c.maxBody > 0 && |BodyOf(f.events)| <= c.maxBody
    requires f.m.fr.bad || f.m.bodyTotal == |BodyOf(f.events)|
    ensures |BodyOf(Feed(c, f, chunks).events)| <= c.maxBody
    ensures BodyOf(f.events) <= BodyOf(Feed(c, f, chunks).events)
    decreases |chunks|
  {
    hide Drive, BodyOf;
    if chunks != [] {
      var e := Drive(c, f.m, f.rest + chunks[0]);
      BodyConcat(f.events, e.events);
      OverBodyIsBad(c, f.m, f.rest + chunks[0]);
      if f.m.fr.bad {
        PoisonedStays(c, f.m, f.rest + chunks[0]);
        NothingReported();
      } else {
        BodyWithinLimit(c, f.m, f.rest + chunks[0]);
      }
      FeedWithinLimit(c, Run(e.m, e.rest, f.events + e.events, f.overBody || e.overBody),
                      chunks[1..]);
    }
  }

  lemma PrefixStep(c: Config, m: Msg, src: ByteSeq, cut: nat)
    requires Step(c, m, src).stop == Go && cut <= |src|
    requires |src| - |Step(c, m, src).rest| <= cut
    requires m.fr.inFrame ==> |src| >= m.fr.remain
    ensures Step(c, m, src[..cut]).stop == Go
    ensures Step(c, m, src) == Step(c, m, src[..cut]).(rest := Step(c, m, src[..cut]).rest + src[cut..])
  {
    hide Qpack.DecodeSection, OnComplete, OnPayload, ReadHeader;
    assert src == src[..cut] + src[cut..];
    if !m.fr.inFrame {
      PrefixHeader(src, cut);
    }
    HandlersGoOn(c, m, src, cut);
    StepExtends(c, m, src[..cut], src[cut..]);
  }

  lemma HandlersGoOn(c: Config, m: Msg, src: ByteSeq, cut: nat)
    requires Step(c, m, src).stop == Go && cut <= |src|
    requires |src| - |Step(c, m, src).rest| <= cut
    requires m.fr.inFrame ==> |src| >= m.fr.remain
    requires !m.fr.inFrame ==> ReadHeader(src[..cut]).Some?
    ensures Step(c, m, src[..cut]).stop != Starved
    ensures !Partial(m, src[..cut])
  {
    hide Qpack.DecodeSection, ReadHeader;
  }

  lemma PrefixHeader(s: ByteSeq, cut: nat)
    requires ReadHeader(s).Some? && ReadHeader(s).value.2 <= cut <= |s|
    ensures ReadHeader(s[..cut]).Some?
  {
    var tn := Varint.Decode(s).value.1;
    assert s[..cut][tn..] == s[tn..][..cut - tn];
  }

  /** A body that crosses its limit with room to spare can be cut so that more of it is reported. */
  lemma {:induction false} CutReportsMore(c: Config, m: Msg, src: ByteSeq) returns (cut: nat)
    requires var d := Drive(c, m, src);
             d.overBody && m.bodyTotal + |BodyOf(d.events)| < c.maxBody
    ensures cut <= |src|
    ensures |BodyOf(Drive(c, m, src[..cut]).events)| > |BodyOf(Drive(c, m, src).events)|
    decreases |src|, m.fr.inFrame
  {
    hide Step, BodyOf;
    StepConsumes(c, m, src);
    StepCounts(c, m, src);
    var a := Step(c, m, src);
    NothingReported();
    if a.stop == Go {
      var tail := Drive(c, a.m, a.rest);
      BodyConcat(a.out, tail.events);
      var rest := CutReportsMore(c, a.m, a.rest);
      if m.fr.inFrame && |src| < m.fr.remain {
        ShortPayload(c, m, src);
        assert false;
      }
      cut := |src| - |a.rest| + rest;
      PrefixStep(c, m, src, cut);
      var b := Step(c, m, src[..cut]);
      assert b.rest == a.rest[..rest] by {
        assert a.rest == b.rest + src[cut..];
      }
      Unroll(c, m, src[..cut]);
      BodyConcat(a.out, Drive(c, a.m, a.rest[..rest]).events);
    } else {
      cut := CrossingCut(c, m, src);
    }
  }

  lemma ShortPayload(c: Config, m: Msg, src: ByteSeq)
    requires m.fr.inFrame && |src| < m.fr.remain && Step(c, m, src).stop == Go
    ensures !Drive(c, m, src).overBody
  {
  }

  lemma CrossingCut(c: Config, m: Msg, src: ByteSeq) returns (cut: nat)
    requires Step(c, m, src).stop == Failed(true) && m.bodyTotal < c.maxBody
    ensures cut <= |src| && |BodyOf(Drive(c, m, src[..cut]).events)| > 0
  {
    hide Qpack.DecodeSection, ReadHeader, BodyOf, Drive;
    cut := 1;
    PayloadStep(c, m, src[..1]);
    var a := Step(c, m, src[..1]);
    assert src[..1][..1] == src[..1] && src[..1][1..] == [];
    assert a.stop == Go && a.out == [Body(src[..1])] && a.rest == [];
    Unroll(c, m, src[..1]);
    OneRun(src[..1]);
    BodyConcat(a.out, Drive(c, a.m, []).events);
  }

  /** The body is the same however the stream is cut if and only if one read of it either stays
      within the limit or reports exactly the limit before it is refused. */
  lemma BodyIndependenceExact(c: Config, src: ByteSeq)
    ensures var w := Drive(c, INIT, src);
            (forall chunks :: Join(chunks) == src ==>
                                BodyOf(Feed(c, START, chunks).events) == BodyOf(w.events))
            <==> !w.overBody || |BodyOf(w.events)| == c.maxBody
  {
    hide Drive, BodyOf, Feed, Join;
    var w := Drive(c, INIT, src);
    BodyWithinLimit(c, INIT, src);
    NothingReported();
    forall chunks | Join(chunks) == src && (!w.overBody || |BodyOf(w.events)| == c.maxBody)
      ensures BodyOf(Feed(c, START, chunks).events) == BodyOf(w.events)
    {
      FragmentationIndependence(c, chunks);
      if w.overBody {
        FeedWithinLimit(c, START, chunks);
      }
    }
    if w.overBody && |BodyOf(w.events)| < c.maxBody {
      var cut := CutReportsMore(c, INIT, src);
      var chunks := [src[..cut], src[cut..]];
      CutInTwo(c, src, cut);
      assert Join(chunks) == src;
    }
  }

  lemma CutInTwo(c: Config, src: ByteSeq, cut: nat)
    requires cut <= |src| && c.maxBody > 0
    ensures Join([src[..cut], src[cut..]]) == src
    ensures |BodyOf(Feed(c, START, [src[..cut], src[cut..]]).events)|
            >= |BodyOf(Drive(c, INIT, src[..cut]).events)|
  {
    hide Drive, BodyOf;
    var chunks := [src[..cut], src[cut..]];
    var second: seq<ByteSeq> := chunks[1..];
    assert second == [src[cut..]] && |second[1..]| == 0;
    assert Join(chunks[1..]) == src[cut..] + [];
    var e := Drive(c, INIT, src[..cut]);
    assert START.rest + chunks[0] == src[..cut];
    assert START.events + e.events == e.events;
    BodyWithinLimit(c, INIT, src[..cut]);
    OverBodyIsBad(c, INIT, src[..cut]);
    FeedWithinLimit(c, Run(e.m, e.rest, e.events, e.overBody), chunks[1..]);
  }

  // ----- The order of what is reported

  datatype Phase = Fresh | Headed | Bodied | Ended

  /** Heads, at least one before anything else; then body; then at most one set of trailers. */
  function After(p: Phase, e: Event): Option<Phase> {
    match e
    case Head(_) => if p in {Fresh, Headed} then Some(Headed) else None
    case Body(_) => if p in {Headed, Bodied} then Some(Bodied) else None
    case Trailers(_) => if p in {Headed, Bodied} then Some(Ended) else None
  }

  function AfterAll(p: Phase, events: seq<Event>): Option<Phase>
    decreases |events|
  {
    if events == [] then Some(p)
    else match After(p, events[0])
      case None => None
      case Some(q) => AfterAll(q, events[1..])
  }

  /** What every reachable state of the reader satisfies, given what it has reported. */
  predicate Inv(c: Config, m: Msg, p: Phase) {
    && (p == Fresh <==> !m.headDone) && (p == Ended <==> m.trailersDone)
    && (p == Bodied ==> m.bodyStarted)
    && (m.bodyStarted ==> m.headDone) && (m.trailersDone ==> m.bodyStarted)
    && m.fr.remain <= m.fr.len
    && (!m.fr.bad && m.fr.inFrame && m.inFields ==>
          && !m.trailersDone && m.fr.ty == HEADERS && m.fr.len <= c.limits.maxSize
          && |m.fields| + m.fr.remain == m.fr.len)
    && (!m.fr.bad && m.fr.inFrame && !m.inFields && m.fr.ty == DATA ==>
          m.bodyStarted && !m.trailersDone)
    && (!m.fr.bad && !m.fr.inFrame ==> !m.inFields)
    && (!m.inFields && !m.fr.bad ==> m.fields == [])
    && (c.maxBody > 0 && !m.fr.bad ==> m.bodyTotal <= c.maxBody)
    && (m.err != 0 ==> m.fr.bad)
  }

  lemma StepKeepsInv(c: Config, m: Msg, src: ByteSeq, p: Phase)
    requires Inv(c, m, p)
    ensures var a := Step(c, m, src);
            AfterAll(p, a.out).Some? && Inv(c, a.m, AfterAll(p, a.out).value)
  {
    hide Qpack.DecodeSection, ReadHeader;
    var a := Step(c, m, src);
    assert |a.out| <= 1;
    assert a.out != [] ==> a.out[1..] == [];
  }

  lemma {:induction false} AfterConcat(p: Phase, a: seq<Event>, b: seq<Event>)
    requires AfterAll(p, a).Some?
    ensures AfterAll(p, a + b) == AfterAll(AfterAll(p, a).value, b)
    decreases |a|
  {
    if a == [] {
      assert a + b == b;
    } else {
      AfterConcat(After(p, a[0]).value, a[1..], b);
      assert (a + b)[1..] == a[1..] + b;
    }
  }

  lemma {:induction false} DriveKeepsInv(c: Config, m: Msg, src: ByteSeq, p: Phase)
    requires Inv(c, m, p)
    ensures var d := Drive(c, m, src);
            AfterAll(p, d.events).Some? && Inv(c, d.m, AfterAll(p, d.events).value)
    decreases |src|, m.fr.inFrame
  {
    hide Step, Inv;
    StepConsumes(c, m, src);
    StepKeepsInv(c, m, src, p);
    var a := Step(c, m, src);
    if a.stop == Go {
      var q := AfterAll(p, a.out).value;
      DriveKeepsInv(c, a.m, a.rest, q);
      AfterConcat(p, a.out, Drive(c, a.m, a.rest).events);
    }
  }

  lemma {:induction false} FeedKeepsInv(c: Config, f: Run, p: Phase, chunks: seq<ByteSeq>)
    requires AfterAll(Fresh, f.events) == Some(p) && Inv(c, f.m, p)
    ensures var g := Feed(c, f, chunks);
            AfterAll(Fresh, g.events).Some? && Inv(c, g.m, AfterAll(Fresh, g.events).value)
    decreases |chunks|
  {
    hide Drive, Inv, AfterAll;
    if chunks != [] {
      var e := Drive(c, f.m, f.rest + chunks[0]);
      DriveKeepsInv(c, f.m, f.rest + chunks[0], p);
      AfterConcat(Fresh, f.events, e.events);
      FeedKeepsInv(c, Run(e.m, e.rest, f.events + e.events, f.overBody || e.overBody),
                   AfterAll(p, e.events).value, chunks[1..]);
    }
  }

  /** Over any run, however the stream is cut, what is reported is one or more heads, then body,
      then at most one set of trailers; and the reader never holds more of a section than its
      frame declared, nor reports more body than its limit. */
  lemma ReportsAreOrdered(c: Config, chunks: seq<ByteSeq>)
    ensures var g := Feed(c, START, chunks);
            AfterAll(Fresh, g.events).Some? && Inv(c, g.m, AfterAll(Fresh, g.events).value)
  {
    FeedKeepsInv(c, START, Fresh, chunks);
  }

  // ----- A message written and read back

  /** A frame boundary: the reader has nothing in hand. */
  predicate AtBoundary(m: Msg) {
    !m.fr.bad && !m.fr.inFrame && !m.inFields && m.fields == []
  }

  lemma HeaderStep(c: Config, m: Msg, ty: nat, payload: ByteSeq, rest: ByteSeq)
    requires AtBoundary(m) && ty <= Varint.VARINT_MAX && |payload| <= Varint.VARINT_MAX
    ensures Step(c, m, FrameBytes(ty, payload) + rest)
            == OnHeader(c, m.(fr := Frame(ty, |payload|, |payload|, true, false)), payload + rest)
  {
    hide ReadHeader, FrameBytes, OnHeader, Varint.Encode;
    HeaderRoundTrip(ty, payload, rest);
  }

  lemma CompleteStep(c: Config, m: Msg, src: ByteSeq)
    requires !m.fr.bad && m.fr.inFrame && m.fr.remain == 0
    ensures Step(c, m, src) == OnComplete(c, m.(fr := m.fr.(inFrame := false)), src)
  {
    hide OnComplete;
  }

  lemma WholePayload(c: Config, m: Msg, payload: ByteSeq, rest: ByteSeq)
    requires !m.fr.bad && m.fr.inFrame && m.fr.remain == |payload| > 0
    ensures Step(c, m, payload + rest)
            == OnPayload(c, m.(fr := m.fr.(remain := 0)), payload, rest)
  {
    hide Step, OnPayload;
    PayloadStep(c, m, payload + rest);
    assert (payload + rest)[..|payload|] == payload && (payload + rest)[|payload|..] == rest;
  }

  /** The state after a whole field section has been read at a frame boundary. */
  function SectionRead(m: Msg, len: nat, fs: seq<Qpack.Field>): Msg {
    m.(fr := Frame(HEADERS, len, 0, false, false), headers := fs,
       headDone := m.headDone || !m.bodyStarted, trailersDone := m.trailersDone || m.bodyStarted)
  }

  function Prepend(out: seq<Event>, d: Run): Run { d.(events := out + d.events) }

  lemma Unroll(c: Config, m: Msg, src: ByteSeq)
    requires Step(c, m, src).stop == Go
    ensures var a := Step(c, m, src);
            Drive(c, m, src) == Prepend(a.out, Drive(c, a.m, a.rest))
  {
    hide Step;
    StepConsumes(c, m, src);
  }

  lemma PrependNothing(d: Run)
    ensures Prepend([], d) == d
  {
    assert [] + d.events == d.events;
  }

  /** A HEADERS frame read in one go. */
  lemma HeadersRead(c: Config, m: Msg, payload: ByteSeq, fs: seq<Qpack.Field>, rest: ByteSeq)
    requires AtBoundary(m) && !m.trailersDone
    requires 0 < |payload| <= c.limits.maxSize
    requires Qpack.DecodeSection(payload, c.limits) == Qpack.Fields(fs)
    ensures Drive(c, m, FrameBytes(HEADERS, payload) + rest)
            == Prepend([if m.bodyStarted then Trailers(fs) else Head(fs)],
                       Drive(c, SectionRead(m, |payload|, fs), rest))
  {
    hide Step, FrameBytes, Qpack.DecodeSection, Drive, Prepend;
    var n := |payload|;
    HeaderStep(c, m, HEADERS, payload, rest);
    Unroll(c, m, FrameBytes(HEADERS, payload) + rest);
    var m1 := m.(fr := Frame(HEADERS, n, n, true, false), inFields := true);
    PrependNothing(Drive(c, m1, payload + rest));
    WholePayload(c, m1, payload, rest);
    Unroll(c, m1, payload + rest);
    var m2 := m1.(fr := Frame(HEADERS, n, 0, true, false), fields := payload);
    assert [] + payload == payload;
    PrependNothing(Drive(c, m2, rest));
    CompleteStep(c, m2, rest);
    Unroll(c, m2, rest);
  }

  /** The state after a whole run of body has been read at a frame boundary. */
  function DataDone(m: Msg, n: nat): Msg {
    m.(fr := Frame(DATA, n, 0, false, false), bodyStarted := true, bodyTotal := m.bodyTotal + n)
  }

  /** A DATA frame read in one go. */
  lemma DataRead(c: Config, m: Msg, payload: ByteSeq, rest: ByteSeq)
    requires AtBoundary(m) && m.headDone && !m.trailersDone
    requires 0 < |payload| <= Varint.VARINT_MAX
    requires c.maxBody == 0 || m.bodyTotal + |payload| <= c.maxBody
    ensures Drive(c, m, FrameBytes(DATA, payload) + rest)
            == Prepend([Body(payload)], Drive(c, DataDone(m, |payload|), rest))
  {
    hide Step, FrameBytes, Drive, Prepend;
    var n := |payload|;
    HeaderStep(c, m, DATA, payload, rest);
    Unroll(c, m, FrameBytes(DATA, payload) + rest);
    var m1 := m.(fr := Frame(DATA, n, n, true, false), bodyStarted := true);
    PrependNothing(Drive(c, m1, payload + rest));
    WholePayload(c, m1, payload, rest);
    Unroll(c, m1, payload + rest);
    var m2 := m1.(fr := Frame(DATA, n, 0, true, false), bodyTotal := m.bodyTotal + n);
    CompleteStep(c, m2, rest);
    Unroll(c, m2, rest);
    PrependNothing(Drive(c, DataDone(m, n), rest));
  }

  /** The body frames of a message. An empty run is not sent. */
  function BodyFrames(runs: seq<ByteSeq>): ByteSeq
    requires forall r :: r in runs ==> |r| <= Varint.VARINT_MAX
  {
    if runs == [] then []
    else (if runs[0] == [] then [] else FrameBytes(DATA, runs[0])) + BodyFrames(runs[1..])
  }

  /** The state, and what has been reported, once all the body frames have been read. */
  lemma {:induction false} BodyFramesRead(c: Config, m: Msg, runs: seq<ByteSeq>, rest: ByteSeq)
      returns (m': Msg, out: seq<Event>)
    requires forall r :: r in runs ==> |r| <= Varint.VARINT_MAX
    requires AtBoundary(m) && m.headDone && !m.trailersDone
    requires c.maxBody == 0 || m.bodyTotal + |Join(runs)| <= c.maxBody
    ensures AtBoundary(m') && m'.headDone && !m'.trailersDone && m'.err == m.err
    ensures m'.bodyStarted <==> m.bodyStarted || Join(runs) != []
    ensures Drive(c, m, BodyFrames(runs) + rest) == Prepend(out, Drive(c, m', rest))
    ensures Sections(out) == [] && BodyOf(out) == Join(runs)
    decreases |runs|
  {
    hide Step, FrameBytes, Drive, Prepend, Sections, BodyOf;
    if runs == [] {
      assert BodyFrames(runs) + rest == rest;
      PrependNothing(Drive(c, m, rest));
      NothingReported();
      return m, [];
    }
    var r, tail := runs[0], BodyFrames(runs[1..]) + rest;
    if r == [] {
      assert BodyFrames(runs) + rest == tail && Join(runs) == Join(runs[1..]);
      m', out := BodyFramesRead(c, m, runs[1..], rest);
    } else {
      assert BodyFrames(runs) + rest == FrameBytes(DATA, r) + tail;
      DataRead(c, m, r, tail);
      m', out := BodyFramesRead(c, DataDone(m, |r|), runs[1..], rest);
      PrependTwice([Body(r)], out, Drive(c, m', rest));
      OneRun(r);
      SectionsConcat([Body(r)], out);
      BodyConcat([Body(r)], out);
      out := [Body(r)] + out;
    }
  }

  lemma PrependTwice(a: seq<Event>, b: seq<Event>, d: Run)
    ensures Prepend(a, Prepend(b, d)) == Prepend(a + b, d)
  {
    assert a + (b + d.events) == a + b + d.events;
  }

  /** A message as it is written: its head, its body in whatever runs it was sent, and trailers if
      there are any. */
  function Message(head: seq<Qpack.Field>, runs: seq<ByteSeq>, trailers: Option<seq<Qpack.Field>>): ByteSeq
    requires |Qpack.EncodeSection(head)| <= Varint.VARINT_MAX
    requires trailers.Some? ==> |Qpack.EncodeSection(trailers.value)| <= Varint.VARINT_MAX
    requires forall r :: r in runs ==> |r| <= Varint.VARINT_MAX
  {
    FrameBytes(HEADERS, Qpack.EncodeSection(head)) + BodyFrames(runs)
    + if trailers.Some? then FrameBytes(HEADERS, Qpack.EncodeSection(trailers.value)) else []
  }

  /** A section this endpoint's peer will take. */
  predicate Acceptable(c: Config, fs: seq<Qpack.Field>) {
    && Qpack.Sendable(fs)
    && |fs| <= c.limits.maxCount && Qpack.SectionSize(fs) <= c.limits.maxSize
    && (fs == [] ==> 2 <= c.limits.maxSize)
  }

  lemma {:induction false} BoundIsSmaller(fs: seq<Qpack.Field>)
    ensures Qpack.Bound(fs) + 10 * |fs| == Qpack.SectionSize(fs)
  {
    if fs != [] {
      BoundIsSmaller(fs[1..]);
    }
  }

  lemma AcceptableReads(c: Config, fs: seq<Qpack.Field>)
    requires Acceptable(c, fs)
    ensures 0 < |Qpack.EncodeSection(fs)| <= c.limits.maxSize <= Varint.VARINT_MAX
    ensures Qpack.DecodeSection(Qpack.EncodeSection(fs), c.limits)
            == Qpack.Fields(Qpack.LowerNames(fs))
  {
    hide Qpack.EncodeFields, Qpack.DecodeSection, Qpack.Sendable, Qpack.SectionSize;
    Qpack.EncodedBound(fs);
    BoundIsSmaller(fs);
    Qpack.SectionRoundTrip(fs, c.limits);
  }

  /** What a reader reports for the trailers: a section that follows no body is another head. */
  function TrailerEvents(runs: seq<ByteSeq>, trailers: Option<seq<Qpack.Field>>): seq<Event> {
    if trailers.None? then []
    else if Join(runs) == [] then [Head(Qpack.LowerNames(trailers.value))]
    else [Trailers(Qpack.LowerNames(trailers.value))]
  }

  /** What reading a whole message leaves and reports. */
  ghost predicate Delivers(d: Run, head: seq<Qpack.Field>, runs: seq<ByteSeq>,
                           trailers: Option<seq<Qpack.Field>>) {
    && d.rest == [] && d.m.err == 0 && !d.m.fr.bad && !d.overBody
    && Sections(d.events) == [Head(Qpack.LowerNames(head))] + TrailerEvents(runs, trailers)
    && BodyOf(d.events) == Join(runs)
  }

  predicate Sent(c: Config, head: seq<Qpack.Field>, runs: seq<ByteSeq>,
                 trailers: Option<seq<Qpack.Field>>) {
    && Acceptable(c, head) && (trailers.Some? ==> Acceptable(c, trailers.value))
    && (forall r :: r in runs ==> |r| <= Varint.VARINT_MAX)
    && (c.maxBody == 0 || |Join(runs)| <= c.maxBody)
  }

  lemma SectionReported(e: Event, rest: seq<Event>)
    requires !e.Body?
    ensures Sections([e] + rest) == [e] + Sections(rest)
    ensures BodyOf([e] + rest) == BodyOf(rest)
  {
    assert ([e] + rest)[1..] == rest;
  }

  lemma BoundaryStarves(c: Config, m: Msg)
    requires AtBoundary(m)
    ensures Drive(c, m, []) == Run(m, [], [], false)
  {
  }

  lemma TrailersRead(c: Config, m: Msg, trailers: Option<seq<Qpack.Field>>, started: bool)
    requires AtBoundary(m) && m.headDone && !m.trailersDone && m.err == 0
    requires m.bodyStarted == started && (trailers.Some? ==> Acceptable(c, trailers.value))
    ensures trailers.Some? ==> |Qpack.EncodeSection(trailers.value)| <= Varint.VARINT_MAX
    ensures var bytes := if trailers.Some? then FrameBytes(HEADERS, Qpack.EncodeSection(trailers.value))
                         else [];
            var d := Drive(c, m, bytes);
            && d.rest == [] && d.m.err == 0 && !d.m.fr.bad && !d.overBody
            && d.events == if trailers.None? then []
                           else var fs := Qpack.LowerNames(trailers.value);
                                [if started then Trailers(fs) else Head(fs)]
  {
    hide Step, Drive, FrameBytes, Qpack.DecodeSection, Qpack.EncodeSection, Acceptable;
    if trailers.None? {
      BoundaryStarves(c, m);
    } else {
      var payload := Qpack.EncodeSection(trailers.value);
      AcceptableReads(c, trailers.value);
      var fs := Qpack.LowerNames(trailers.value);
      HeadersRead(c, m, payload, fs, []);
      assert FrameBytes(HEADERS, payload) + [] == FrameBytes(HEADERS, payload);
      BoundaryStarves(c, SectionRead(m, |payload|, fs));
    }
  }

  lemma MessageReads(c: Config, head: seq<Qpack.Field>, runs: seq<ByteSeq>,
                     trailers: Option<seq<Qpack.Field>>)
    requires Sent(c, head, runs, trailers)
    ensures |Qpack.EncodeSection(head)| <= Varint.VARINT_MAX
    ensures trailers.Some? ==> |Qpack.EncodeSection(trailers.value)| <= Varint.VARINT_MAX
    ensures Delivers(Drive(c, INIT, Message(head, runs, trailers)), head, runs, trailers)
  {
    hide Step, Drive, FrameBytes, Qpack.DecodeSection, Qpack.EncodeSection, Acceptable;
    hide Sections, BodyOf, BodyFrames, Join;
    AcceptableReads(c, head);
    var payload, fs := Qpack.EncodeSection(head), Qpack.LowerNames(head);
    if trailers.Some? {
      AcceptableReads(c, trailers.value);
    }
    var last := if trailers.Some? then FrameBytes(HEADERS, Qpack.EncodeSection(trailers.value)) else [];
    var m1 := SectionRead(INIT, |payload|, fs);
    assert Message(head, runs, trailers)
        == FrameBytes(HEADERS, payload) + (BodyFrames(runs) + last);
    HeadersRead(c, INIT, payload, fs, BodyFrames(runs) + last);
    var m2, out := BodyFramesRead(c, m1, runs, last);
    TrailersRead(c, m2, trailers, Join(runs) != []);
    var t := Drive(c, m2, last);
    SectionReported(Head(fs), out + t.events);
    SectionsConcat(out, t.events);
    BodyConcat(out, t.events);
    NothingReported();
    if trailers.Some? {
      SectionReported(t.events[0], []);
      assert [t.events[0]] + [] == t.events;
    }
  }

  /** A message written by one endpoint and delivered to the other in any pieces whatever is
      reported as its head, its body and its trailers, with nothing left over and no error. */
  lemma MessageDelivered(c: Config, head: seq<Qpack.Field>, runs: seq<ByteSeq>,
                         trailers: Option<seq<Qpack.Field>>, chunks: seq<ByteSeq>)
    requires Sent(c, head, runs, trailers)
    requires |Qpack.EncodeSection(head)| <= Varint.VARINT_MAX
    requires trailers.Some? ==> |Qpack.EncodeSection(trailers.value)| <= Varint.VARINT_MAX
    requires Join(chunks) == Message(head, runs, trailers)
    ensures Delivers(Feed(c, START, chunks), head, runs, trailers)
  {
    hide Drive, Feed, Message, Sent, Qpack.EncodeSection, Sections, BodyOf, TrailerEvents;
    MessageReads(c, head, runs, trailers);
    FragmentationIndependence(c, chunks);
  }
}
