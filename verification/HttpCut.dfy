/** Exactly when the HTTP/1.1 parser does the same however its input is cut into reads: for each of
    the two ways in which it may not, a cut that shows it. */
module HttpCut {
  import opened Bytes
  import opened HttpText
  import opened HttpLine
  import opened HttpParse

  // ----- A step that is complete before the cut

  lemma {:induction false} ScanOfPrefix(w: ByteSeq, n: nat, bareLF: bool, i: nat)
    requires Scan(w, bareLF, i).Ends? && Scan(w, bareLF, i).skip <= n <= |w|
    ensures Scan(w[..n], bareLF, i) == Scan(w, bareLF, i)
    decreases |w| - i
  {
    if w[i] != LF {
      ScanOfPrefix(w, n, bareLF, i + 1);
    }
  }

  lemma LineOfPrefix(src: ByteSeq, cut: nat, limit: nat, bareLF: bool)
    requires var r := ReadLine(src, limit, bareLF); r.Got? && r.skip <= cut <= |src|
    ensures ReadLine(src[..cut], limit, bareLF) == ReadLine(src, limit, bareLF)
  {
    var w := Window(src, limit);
    var n := Min(cut, |w|);
    assert Window(src[..cut], limit) == w[..n];
    ScanOfPrefix(w, n, bareLF, 0);
    var eol := Scan(w, bareLF, 0).eol;
    assert w[..n][..eol] == w[..eol];
  }

  lemma LineStepOfPrefix(c: Config, p: Parser, src: ByteSeq, k: nat)
    requires ReadsLine(p.state)
    requires var s := StepLine(c, p, src); s.stop == Go && !s.edge && 0 < k <= |s.rest| <= |src|
    ensures var s := StepLine(c, p, src);
            var cut := |src| - |s.rest| + k;
            StepLine(c, p, src[..cut]) == s.(rest := s.rest[..k])
  {
    hide OnLine, ReadLine, AtEdge;
    var limit, bareLF := c.lim.maxLineLen, InHead(p.state);
    var s, r := StepLine(c, p, src), ReadLine(src, limit, bareLF);
    var cut := |src| - |s.rest| + k;
    match r
    case Got(line, skip) =>
      assert s.rest == src[skip..];
      LineOfPrefix(src, cut, limit, bareLF);
      EdgeOfPrefix(src, cut, limit, bareLF);
      assert src[..cut][skip..] == s.rest[..k];
    case _ =>
  }

  lemma EdgeOfPrefix(src: ByteSeq, cut: nat, limit: nat, bareLF: bool)
    requires cut <= |src| && !AtEdge(src, limit, bareLF)
    ensures !AtEdge(src[..cut], limit, bareLF)
  {
    hide AtEdge;
    assert src == src[..cut] + src[cut..];
    EdgeExtends(src[..cut], src[cut..], limit, bareLF);
  }

  /** A step that goes on, with input left over, is the same step when that input ends early. */
  lemma StepOfPrefix(c: Config, p: Parser, src: ByteSeq, k: nat)
    requires var s := Step(c, p, src); s.stop == Go && !s.edge && 0 < k <= |s.rest| <= |src|
    ensures var s := Step(c, p, src);
            var cut := |src| - |s.rest| + k;
            Step(c, p, src[..cut]) == s.(rest := s.rest[..k])
  {
    hide OnBody, StepLine;
    var s := Step(c, p, src);
    var cut := |src| - |s.rest| + k;
    if ReadsLine(p.state) {
      LineStepOfPrefix(c, p, src, k);
    } else if ReadsBody(p.state) {
      var n := BodyRun(p, |src|);
      assert src[..cut][..n] == src[..n] && src[..cut][n..] == s.rest[..k];
    } else {
      assert src[..cut] == s.rest[..k];
    }
  }

  lemma Unroll(c: Config, p: Parser, src: ByteSeq)
    requires Step(c, p, src).stop == Go
    ensures var s := Step(c, p, src);
            var e := Drive(c, s.p, s.rest);
            && |s.rest| <= |src|
            && Drive(c, p, src) == e.(events := s.out + e.events, edge := s.edge || e.edge)
  {
    hide Step;
    StepConsumes(c, p, src);
  }

  lemma {:induction false} DriveShrinks(c: Config, p: Parser, src: ByteSeq)
    ensures |Drive(c, p, src).rest| <= |src|
    decreases |src|, p.state == Interim
  {
    hide Step;
    StepConsumes(c, p, src);
    var s := Step(c, p, src);
    if s.stop == Go {
      DriveShrinks(c, s.p, s.rest);
    } else {
      StopsShort(c, p, src);
    }
  }

  lemma StopsShort(c: Config, p: Parser, src: ByteSeq)
    ensures |Step(c, p, src).rest| <= |src|
  {
    hide OnLine, OnBody, ReadLine, AtEdge;
  }

  // ----- A line decided by its very last byte

  /** What a run over the first `k` bytes comes to when it was refused there, and the run over all of
      them was not: another error, or more left unread. */
  ghost predicate CutShort(w: Run, d: Run, left: nat) {
    && d.stop == Refused(false) && Ended(d.p)
    && (d.p.err != w.p.err || |d.rest| + left > |w.rest|)
  }

  lemma LineAtEdge(src: ByteSeq, limit: nat, bareLF: bool)
    requires AtEdge(src, limit, bareLF)
    ensures |src| >= limit + 2
    ensures ReadLine(src[..limit + 1], limit, bareLF) == TooLong
    ensures ReadLine(src, limit, bareLF).Got? || ReadLine(src, limit, bareLF).Malformed?
    ensures !AtEdge(src[..limit + 1], limit, bareLF)
  {
    hide Scan;
    assert Window(src[..limit + 1], limit) == src[..limit + 1];
    assert Window(src, limit) == src[..limit + 2];
  }

  /** The step that reads such a line, and the step cut short of its last byte. */
  lemma EdgeStep(c: Config, p: Parser, src: ByteSeq)
    requires Step(c, p, src).edge
    ensures var k := c.lim.maxLineLen + 1;
            var s, d := Step(c, p, src), Step(c, p, src[..k]);
            && 0 < k < |src|
            && d.stop == Refused(false) && d.p.state == Failed && d.p.err == TooLarge && d.rest == src[..k]
            && |s.rest| <= |src| && (|s.rest| < |src| || (s.stop == Refused(false) && s.p.err == BadMessage))
  {
    hide OnLine, ReadLine, AtEdge;
    var limit, bareLF := c.lim.maxLineLen, InHead(p.state);
    LineAtEdge(src, limit, bareLF);
  }

  lemma EdgeRefuses(c: Config, p: Parser, src: ByteSeq)
    requires Step(c, p, src).edge
    ensures var k := c.lim.maxLineLen + 1;
            && 0 < k < |src|
            && CutShort(Drive(c, p, src), Drive(c, p, src[..k]), |src| - k)
  {
    hide Step, Drive;
    EdgeStep(c, p, src);
    DriveOnce(c, p, src[..c.lim.maxLineLen + 1]);
    DriveOnce(c, p, src);
    var s := Step(c, p, src);
    if s.stop == Go {
      DriveShrinks(c, s.p, s.rest);
    }
  }

  lemma DriveOnce(c: Config, p: Parser, src: ByteSeq)
    ensures var s, d := Step(c, p, src), Drive(c, p, src);
            if s.stop == Go then d.p == Drive(c, s.p, s.rest).p && d.rest == Drive(c, s.p, s.rest).rest
            else d == Run(s.p, s.rest, s.out, s.stop, s.edge)
  {
    hide Step;
    StepConsumes(c, p, src);
  }

  /** Where to cut: just before the byte that decides the line. */
  lemma {:induction false} EdgeCut(c: Config, p: Parser, src: ByteSeq) returns (k: nat)
    requires Drive(c, p, src).edge
    ensures 0 < k < |src|
    ensures CutShort(Drive(c, p, src), Drive(c, p, src[..k]), |src| - k)
    decreases |src|, p.state == Interim
  {
    hide Step;
    StepConsumes(c, p, src);
    var s := Step(c, p, src);
    if s.edge {
      EdgeRefuses(c, p, src);
      k := c.lim.maxLineLen + 1;
    } else {
      Unroll(c, p, src);
      var j := EdgeCut(c, s.p, s.rest);
      k := |src| - |s.rest| + j;
      StepOfPrefix(c, p, src, j);
      Unroll(c, p, src[..k]);
    }
  }

  lemma TwoReads(c: Config, src: ByteSeq, k: nat)
    requires k <= |src|
    ensures Join([src[..k], src[k..]]) == src
    ensures var d := Drive(c, INIT, src[..k]);
            var e := Drive(c, d.p, d.rest + src[k..]);
            Feed(c, BEGIN, [src[..k], src[k..]]) == Resume(d, e)
  {
    hide Drive;
    var a, b := src[..k], src[k..];
    var d := Drive(c, INIT, a);
    var first, second := [a, b], [b];
    assert first[1..] == second && |second[1..]| == 0 && a + (b + []) == src;
    assert Join(second) == b + [];
    assert BEGIN.rest + a == a && BEGIN.events + d.events == d.events;
    assert Resume(BEGIN, d) == d;
    var e := Drive(c, d.p, d.rest + b);
    assert Feed(c, d, second) == Feed(c, Resume(d, e), second[1..]);
  }

  lemma EdgeDisagrees(c: Config, src: ByteSeq) returns (chunks: seq<ByteSeq>)
    requires Drive(c, INIT, src).edge
    ensures Join(chunks) == src && !Agrees(Drive(c, INIT, src), Feed(c, BEGIN, chunks))
  {
    hide Drive, Feed, Join, Heads, BodyOf;
    var k := EdgeCut(c, INIT, src);
    chunks := [src[..k], src[k..]];
    TwoReads(c, src, k);
    var d := Drive(c, INIT, src[..k]);
    EndedStays(c, d.p, d.rest + src[k..]);
  }

  /** Whether a step reads a line. */
  predicate MeetsLine(c: Config, p: Parser) {
    ReadsLine(p.state) && !(InHead(p.state) && p.headBytes > c.lim.maxHeadBytes)
  }

  /** The input from the start of each line that is met when it is read at once. */
  function LinesMet(c: Config, p: Parser, src: ByteSeq): seq<ByteSeq>
    decreases |src|, p.state == Interim
  {
    StepConsumes(c, p, src);
    var a := Step(c, p, src);
    (if MeetsLine(c, p) then [src] else []) + (if a.stop == Go then LinesMet(c, a.p, a.rest) else [])
  }

  /** None of them is decided by its very last permitted byte. */
  predicate Settled(lines: seq<ByteSeq>, limit: nat) {
    forall i :: 0 <= i < |lines| ==> !LastByteDecides(lines[i], limit)
  }

  lemma StepEdge(c: Config, p: Parser, src: ByteSeq)
    ensures Step(c, p, src).edge <==> MeetsLine(c, p) && LastByteDecides(src, c.lim.maxLineLen)
  {
    hide OnLine, OnBody, ReadLine, AtEdge, LastByteDecides;
    EdgeIs(src, c.lim.maxLineLen, InHead(p.state));
  }

  lemma SettledSplits(a: seq<ByteSeq>, b: seq<ByteSeq>, limit: nat)
    ensures Settled(a + b, limit) <==> Settled(a, limit) && Settled(b, limit)
  {
    hide LastByteDecides;
    assert forall i :: 0 <= i < |a| ==> (a + b)[i] == a[i];
    assert forall i :: 0 <= i < |b| ==> (a + b)[|a| + i] == b[i];
  }

  lemma SettledOne(s: ByteSeq, limit: nat)
    ensures Settled([s], limit) <==> !LastByteDecides(s, limit)
    ensures Settled([], limit)
  {
    hide LastByteDecides;
    assert [s][0] == s;
  }

  lemma {:induction false} EdgeMeans(c: Config, p: Parser, src: ByteSeq)
    ensures Drive(c, p, src).edge <==> !Settled(LinesMet(c, p, src), c.lim.maxLineLen)
    decreases |src|, p.state == Interim
  {
    hide Step, MeetsLine, LastByteDecides, Settled;
    StepConsumes(c, p, src);
    StepEdge(c, p, src);
    var limit := c.lim.maxLineLen;
    var s := Step(c, p, src);
    var here := if MeetsLine(c, p) then [src] else [];
    var later := if s.stop == Go then LinesMet(c, s.p, s.rest) else [];
    SettledSplits(here, later, limit);
    SettledOne(src, limit);
    if s.stop == Go {
      EdgeMeans(c, s.p, s.rest);
    }
  }

  /** Every way of cutting a stream into reads gives the same heads and the same end, and the same
      body up to its limit, if and only if no line met in reading it at once is decided by byte
      `maxLineLen + 2`. */
  lemma FragmentationExact(c: Config, src: ByteSeq)
    ensures (forall chunks :: Join(chunks) == src ==> Agrees(Drive(c, INIT, src), Feed(c, BEGIN, chunks)))
            <==> Settled(LinesMet(c, INIT, src), c.lim.maxLineLen)
  {
    hide Drive, Feed, Join, Agrees, LinesMet, Settled;
    EdgeMeans(c, INIT, src);
    if Drive(c, INIT, src).edge {
      var chunks := EdgeDisagrees(c, src);
    } else {
      forall chunks | Join(chunks) == src
        ensures Agrees(Drive(c, INIT, src), Feed(c, BEGIN, chunks))
      {
        FragmentationIndependence(c, chunks);
      }
    }
  }

  // ----- A body that crosses its limit

  /** What a step does to the count of body bytes. */
  predicate Counts(c: Config, p: Parser, a: Advance) {
    && (a.stop != Go ==> a.out == [])
    && (a.stop != Refused(true) ==> a.p.bodyTotal == p.bodyTotal + |BodyOf(a.out)|)
    && (a.stop == Refused(true) ==> c.lim.maxBodyBytes > 0)
    && (a.stop == Go && c.lim.maxBodyBytes > 0 && p.bodyTotal <= c.lim.maxBodyBytes ==>
          a.p.bodyTotal <= c.lim.maxBodyBytes)
  }

  lemma LineStepCounts(c: Config, p: Parser, src: ByteSeq)
    requires ReadsLine(p.state)
    ensures Counts(c, p, StepLine(c, p, src))
  {
    hide ReadLine, AtEdge, OnLine, BodyOf;
    NothingReported();
    var r := ReadLine(src, c.lim.maxLineLen, InHead(p.state));
    if r.Got? {
      LineCounts(c, p.(headBytes := (p.headBytes + r.skip) % U32), r.line);
    }
  }

  lemma BodyStepCounts(c: Config, p: Parser, src: ByteSeq)
    requires ReadsBody(p.state)
    ensures Counts(c, p, StepBody(c, p, src))
  {
    hide BodyOf;
    NothingReported();
    OneRun(src[..BodyRun(p, |src|)]);
  }

  lemma StepCounts(c: Config, p: Parser, src: ByteSeq)
    ensures Counts(c, p, Step(c, p, src))
  {
    hide StepLine, StepBody, BodyOf;
    NothingReported();
    if ReadsLine(p.state) {
      LineStepCounts(c, p, src);
    } else if ReadsBody(p.state) {
      BodyStepCounts(c, p, src);
    }
  }

  lemma LineCounts(c: Config, p: Parser, line: ByteSeq)
    requires ReadsLine(p.state)
    ensures var t := OnLine(c, p, line);
            && t.p.bodyTotal == p.bodyTotal && BodyOf(t.out) == [] && t.stop != Refused(true)
            && (t.stop != Go ==> t.out == [])
  {
    hide FinishHead, OnStatusLine, OnRequestLine, ParseNumber, IsToken, Trim, BodyOf;
    NothingReported();
    OnLineShape(c, p, line);
    FinishCounts(c, p);
    StartCounts(p, line);
  }

  lemma FinishCounts(c: Config, p: Parser)
    ensures var t := FinishHead(c, p); t.p.bodyTotal == p.bodyTotal && BodyOf(t.out) == []
  {
    hide Has, HasToken, AgreedLength, ValuesOf;
    var t := FinishHead(c, p);
    assert t.out == [] || (t.out == [t.out[0]] && !t.out[0].Body? && t.out[1..] == []);
  }

  lemma StartCounts(p: Parser, line: ByteSeq)
    ensures OnStatusLine(p, line).p.bodyTotal == p.bodyTotal
    ensures OnRequestLine(p, line).p.bodyTotal == p.bodyTotal
    ensures OnStatusLine(p, line).out == [] && OnRequestLine(p, line).out == []
  {
    hide ParseNumber, ParseVersion, IsToken;
  }

  lemma {:induction false} BodyWithinLimit(c: Config, p: Parser, src: ByteSeq)
    requires c.lim.maxBodyBytes > 0 ==> p.bodyTotal <= c.lim.maxBodyBytes
    ensures var d, max := Drive(c, p, src), c.lim.maxBodyBytes;
            && (max > 0 ==> p.bodyTotal + |BodyOf(d.events)| <= max)
            && (!Over(d) ==> d.p.bodyTotal == p.bodyTotal + |BodyOf(d.events)|)
            && (Over(d) ==> max > 0)
    decreases |src|, p.state == Interim
  {
    hide Step, BodyOf;
    StepConsumes(c, p, src);
    StepCounts(c, p, src);
    NothingReported();
    var s := Step(c, p, src);
    if s.stop == Go {
      BodyWithinLimit(c, s.p, s.rest);
      BodyConcat(s.out, Drive(c, s.p, s.rest).events);
    }
  }

  lemma {:induction false} FeedWithinLimit(c: Config, f: Run, chunks: seq<ByteSeq>)
    requires c.lim.maxBodyBytes > 0 && |BodyOf(f.events)| <= c.lim.maxBodyBytes
    requires Ended(f.p) || f.p.bodyTotal == |BodyOf(f.events)|
    ensures |BodyOf(Feed(c, f, chunks).events)| <= c.lim.maxBodyBytes
    ensures BodyOf(f.events) <= BodyOf(Feed(c, f, chunks).events)
    decreases |chunks|
  {
    hide Drive, BodyOf;
    if chunks != [] {
      var e := Drive(c, f.p, f.rest + chunks[0]);
      BodyConcat(f.events, e.events);
      NothingReported();
      if Ended(f.p) {
        EndedStays(c, f.p, f.rest + chunks[0]);
      } else {
        BodyWithinLimit(c, f.p, f.rest + chunks[0]);
        DriveStops(c, f.p, f.rest + chunks[0]);
      }
      FeedWithinLimit(c, Resume(f, e), chunks[1..]);
    }
  }

  /** A body that crosses its limit with room to spare can be cut so that more of it is reported. */
  lemma {:induction false} CutReportsMore(c: Config, p: Parser, src: ByteSeq) returns (k: nat)
    requires var d := Drive(c, p, src);
             Over(d) && !d.edge && p.bodyTotal + |BodyOf(d.events)| < c.lim.maxBodyBytes
    ensures 0 < k <= |src|
    ensures |BodyOf(Drive(c, p, src[..k]).events)| > |BodyOf(Drive(c, p, src).events)|
    decreases |src|, p.state == Interim
  {
    hide Step, BodyOf;
    StepConsumes(c, p, src);
    StepCounts(c, p, src);
    NothingReported();
    var s := Step(c, p, src);
    if s.stop == Go {
      Unroll(c, p, src);
      BodyConcat(s.out, Drive(c, s.p, s.rest).events);
      var j := CutReportsMore(c, s.p, s.rest);
      k := |src| - |s.rest| + j;
      StepOfPrefix(c, p, src, j);
      Unroll(c, p, src[..k]);
      BodyConcat(s.out, Drive(c, s.p, s.rest[..j]).events);
    } else {
      k := 1;
      FirstByteReported(c, p, src);
    }
  }

  lemma FirstByteReported(c: Config, p: Parser, src: ByteSeq)
    requires Step(c, p, src).stop == Refused(true) && p.bodyTotal < c.lim.maxBodyBytes
    ensures src != [] && |BodyOf(Drive(c, p, src[..1]).events)| > 0
  {
    hide BodyOf, Drive, Step;
    RefusedInBody(c, p, src);
    var x := src[..1];
    assert x[..1] == x && x[1..] == [];
    BodyStep(c, p, x);
    var s := Step(c, p, x);
    Unroll(c, p, x);
    OneRun(x);
    BodyConcat(s.out, Drive(c, s.p, s.rest).events);
  }

  lemma RefusedInBody(c: Config, p: Parser, src: ByteSeq)
    requires Step(c, p, src).stop == Refused(true)
    ensures src != [] && ReadsBody(p.state) && BodyRun(p, 1) == 1
  {
    hide ReadLine, AtEdge, OnLine, OnBody;
    if ReadsLine(p.state) {
      var r := ReadLine(src, c.lim.maxLineLen, InHead(p.state));
      if r.Got? {
        OnLineShape(c, p.(headBytes := (p.headBytes + r.skip) % U32), r.line);
      }
    }
  }

  /** The body, too, is the same however the stream is cut if and only if one read of it either stays
      within the limit or reports exactly the limit before it is refused. */
  lemma BodyExact(c: Config, src: ByteSeq)
    requires Settled(LinesMet(c, INIT, src), c.lim.maxLineLen)
    ensures var w := Drive(c, INIT, src);
            (forall chunks :: Join(chunks) == src ==>
                                BodyOf(Feed(c, BEGIN, chunks).events) == BodyOf(w.events))
            <==> !Over(w) || |BodyOf(w.events)| == c.lim.maxBodyBytes
  {
    hide Drive, BodyOf, Feed, Join, LinesMet, Settled;
    EdgeMeans(c, INIT, src);
    var w := Drive(c, INIT, src);
    BodyWithinLimit(c, INIT, src);
    NothingReported();
    forall chunks | Join(chunks) == src && (!Over(w) || |BodyOf(w.events)| == c.lim.maxBodyBytes)
      ensures BodyOf(Feed(c, BEGIN, chunks).events) == BodyOf(w.events)
    {
      FragmentationIndependence(c, chunks);
      if Over(w) {
        FeedWithinLimit(c, BEGIN, chunks);
      }
    }
    if Over(w) && |BodyOf(w.events)| < c.lim.maxBodyBytes {
      var k := CutReportsMore(c, INIT, src);
      TwoReads(c, src, k);
      var d := Drive(c, INIT, src[..k]);
      BodyConcat(d.events, Drive(c, d.p, d.rest + src[k..]).events);
    }
  }
}
