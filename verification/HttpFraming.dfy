/** What the HTTP/1.1 parser promises about a message's boundaries: what it may report, in what
    order, and when it may call a message complete. */
module HttpFraming {
  import opened Bytes
  import opened HttpText
  import opened HttpLine
  import opened HttpParse
  import opened HttpCut

  // ----- The order and the amount of what is reported

  /** What has been reported so far: interim heads, then one head with the length it announced, if
      any, then body. */
  datatype Tally = Tally(interims: nat, head: Option<Option<nat>>, body: nat) | OutOfOrder

  const NOTHING := Tally(0, None, 0)

  function Count(t: Tally, e: Event): Tally {
    match t
    case OutOfOrder => OutOfOrder
    case Tally(n, head, body) =>
      match e
      case InterimHead(_) => if head.None? then Tally(n + 1, None, body) else OutOfOrder
      case Head(_, total) => if head.None? then Tally(n, Some(total), body) else OutOfOrder
      case Body(bytes) => if head.Some? then Tally(n, head, body + |bytes|) else OutOfOrder
  }

  function CountAll(t: Tally, events: seq<Event>): Tally
    decreases |events|
  {
    if events == [] then t else CountAll(Count(t, events[0]), events[1..])
  }

  lemma {:induction false} CountConcat(t: Tally, a: seq<Event>, b: seq<Event>)
    ensures CountAll(t, a + b) == CountAll(CountAll(t, a), b)
    decreases |a|
  {
    hide Count;
    if a == [] {
      assert a + b == b;
    } else {
      CountConcat(Count(t, a[0]), a[1..], b);
      assert (a + b)[1..] == a[1..] + b;
    }
  }

  /** What every reachable state satisfies, given what has been reported. A counted body and what
      is still to come of it always add up to the length announced. */
  predicate Inv(c: Config, p: Parser, t: Tally) {
    && t.Tally?
    && t.interims <= c.lim.maxInterim && (!p.state.Failed? ==> p.interim == t.interims)
    && (t.head.None? ==> t.body == 0)
    && (!p.state.Failed? ==> t.body == p.bodyTotal)
    && (c.lim.maxBodyBytes > 0 ==> t.body <= c.lim.maxBodyBytes)
    && (p.err != NoError <==> p.state.Failed?)
    && match p.state
       case Start => t.head.None? && Unframed(p)
       case Headers => t.head.None? && Unframed(p)
       case Interim => t.head.None? && Unframed(p)
       case BodyLength => p.length > 0 && t.head == Some(Some(t.body + p.length))
       case BodyClose => t.head == Some(None) && p.framing.closeDelimited && !p.framing.chunked
       case ChunkData => t.head == Some(None) && p.framing.chunked && p.length > 0
       case ChunkSize => t.head == Some(None) && p.framing.chunked
       case ChunkCRLF => t.head == Some(None) && p.framing.chunked
       case Trailer => t.head == Some(None) && p.framing.chunked
       case Done =>
         t.head == Some(Some(t.body))
         || (t.head == Some(None) && p.framing.chunked)
       case Failed => true
  }

  /** No framing has been chosen yet. */
  predicate Unframed(p: Parser) {
    p.framing == Framing(false, false, false, false) && p.bodyTotal == 0
  }

  lemma TurnKeepsInv(c: Config, p: Parser, line: ByteSeq, t: Tally)
    requires ReadsLine(p.state) && Inv(c, p, t)
    ensures var u := OnLine(c, p, line);
            Inv(c, u.p, CountAll(t, u.out))
  {
    hide FinishHead, OnStatusLine, OnRequestLine, ParseNumber, IsToken, Trim;
    if p.state.Start? {
      StartLineKeepsInv(c, p, line, t);
    } else if p.state.Headers? && line == [] {
      HeadKeepsInv(c, p, t);
    }
  }

  lemma StartLineKeepsInv(c: Config, p: Parser, line: ByteSeq, t: Tally)
    requires p.state.Start? && Inv(c, p, t)
    ensures Inv(c, OnStatusLine(p, line).p, t) && Inv(c, OnRequestLine(p, line).p, t)
    ensures OnStatusLine(p, line).out == [] == OnRequestLine(p, line).out
  {
    hide ParseNumber, ParseVersion, IsToken;
  }

  lemma CountOne(t: Tally, e: Event)
    ensures CountAll(t, [e]) == Count(t, e)
    ensures CountAll(t, []) == t
  {
    assert [e][1..] == [];
  }

  lemma HeadKeepsInv(c: Config, p: Parser, t: Tally)
    requires p.state.Headers? && Inv(c, p, t)
    ensures var u := FinishHead(c, p);
            Inv(c, u.p, CountAll(t, u.out))
  {
    hide Has, HasToken, AgreedLength, ValuesOf, CountAll;
    var u := FinishHead(c, p);
    if u.out != [] {
      CountOne(t, u.out[0]);
    } else {
      CountOne(t, InterimHead(p));
    }
  }

  lemma BodyKeepsInv(c: Config, p: Parser, run: ByteSeq, t: Tally)
    requires ReadsBody(p.state) && (p.state.BodyClose? || |run| <= p.length) && Inv(c, p, t)
    ensures var u := OnBody(c, p, run);
            Inv(c, u.p, CountAll(t, u.out))
  {
    hide CountAll;
    CountOne(t, Body(run));
  }

  lemma StepKeepsInv(c: Config, p: Parser, src: ByteSeq, t: Tally)
    requires Inv(c, p, t)
    ensures var a := Step(c, p, src);
            Inv(c, a.p, CountAll(t, a.out))
  {
    hide OnLine, OnBody, ReadLine, AtEdge, CountAll;
    CountOne(t, InterimHead(p));
    if ReadsLine(p.state) {
      var r := ReadLine(src, c.lim.maxLineLen, InHead(p.state));
      if r.Got? {
        TurnKeepsInv(c, p.(headBytes := (p.headBytes + r.skip) % U32), r.line, t);
      }
    } else if ReadsBody(p.state) {
      BodyKeepsInv(c, p, src[..BodyRun(p, |src|)], t);
    }
  }

  lemma {:induction false} DriveKeepsInv(c: Config, p: Parser, src: ByteSeq, t: Tally)
    requires Inv(c, p, t)
    ensures var d := Drive(c, p, src);
            Inv(c, d.p, CountAll(t, d.events))
    decreases |src|, p.state == Interim
  {
    hide Step, Inv;
    StepConsumes(c, p, src);
    StepKeepsInv(c, p, src, t);
    var a := Step(c, p, src);
    if a.stop == Go {
      DriveKeepsInv(c, a.p, a.rest, CountAll(t, a.out));
      CountConcat(t, a.out, Drive(c, a.p, a.rest).events);
    }
  }

  lemma {:induction false} FeedKeepsInv(c: Config, f: Run, chunks: seq<ByteSeq>)
    requires Inv(c, f.p, CountAll(NOTHING, f.events))
    ensures var g := Feed(c, f, chunks);
            Inv(c, g.p, CountAll(NOTHING, g.events))
    decreases |chunks|
  {
    hide Drive, Inv, CountAll;
    if chunks != [] {
      var e := Drive(c, f.p, f.rest + chunks[0]);
      DriveKeepsInv(c, f.p, f.rest + chunks[0], CountAll(NOTHING, f.events));
      CountConcat(NOTHING, f.events, e.events);
      FeedKeepsInv(c, Resume(f, e), chunks[1..]);
    }
  }

  // ----- When a message is complete

  /** Tells the parser the peer closed. */
  function AtEOF(p: Parser): Turn {
    match p.state
    case BodyClose => Turn(p.(state := Done), [], Complete)
    case Done => Turn(p, [], Complete)
    case Failed => Turn(p, [], Refused(false))
    case _ => Fail(p, Closed)
  }

  /** However a message arrives: it is reported as some interim heads, no more than permitted, then
      one head, then body within the limit. If it completes, the head announced exactly as many
      body bytes as were reported, or the body was chunked. If instead the peer closes, that
      completes it only when the head left the close to delimit the body, or it was complete. */
  lemma CompleteMeansComplete(c: Config, chunks: seq<ByteSeq>)
    ensures var g := Feed(c, BEGIN, chunks);
            var t := CountAll(NOTHING, g.events);
            && t.Tally? && t.interims <= c.lim.maxInterim
            && (c.lim.maxBodyBytes > 0 ==> t.body <= c.lim.maxBodyBytes)
            && (g.p.state.Done? ==>
                  t.head == Some(Some(t.body)) || (t.head == Some(None) && g.p.framing.chunked))
            && (AtEOF(g.p).stop == Complete <==> g.p.state.Done? || g.p.state.BodyClose?)
            && (AtEOF(g.p).stop != Complete && !g.p.state.Failed? ==> AtEOF(g.p).p.err == Closed)
            && (g.p.state.BodyClose? ==> t.head == Some(None) && g.p.framing.closeDelimited)
  {
    FeedKeepsInv(c, BEGIN, chunks);
  }

  // ----- When the reads do not matter

  /** A line, with its CR, ends within the limit, if that much of it is there. */
  predicate EndsSoon(line: ByteSeq, limit: nat) {
    |line| >= limit + 2 ==> exists j :: 0 <= j <= limit && line[j] == LF
  }

  predicate AllEndSoon(lines: seq<ByteSeq>, limit: nat) {
    forall i :: 0 <= i < |lines| ==> EndsSoon(lines[i], limit)
  }

  lemma SoonIsSettled(line: ByteSeq, limit: nat)
    requires EndsSoon(line, limit)
    ensures !LastByteDecides(line, limit)
  {
  }

  /** A stream whose lines, as they are met, all end within the limit parses the same however it is cut
      into reads; what its body holds does not matter. */
  lemma ShortLinesIndependence(c: Config, chunks: seq<ByteSeq>)
    requires AllEndSoon(LinesMet(c, INIT, Join(chunks)), c.lim.maxLineLen)
    ensures Agrees(Drive(c, INIT, Join(chunks)), Feed(c, BEGIN, chunks))
  {
    hide Drive, Feed, Agrees, Join, LinesMet;
    var lines := LinesMet(c, INIT, Join(chunks));
    forall i | 0 <= i < |lines| ensures !LastByteDecides(lines[i], c.lim.maxLineLen) {
      SoonIsSettled(lines[i], c.lim.maxLineLen);
    }
    FragmentationExact(c, Join(chunks));
  }
}
