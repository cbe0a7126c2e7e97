/** The HTTP/1.1 parser as it runs: fields updated in place, lines peeked out of the input ring, and
    body left there for the caller to drain. */
module HttpParser {
  import opened Bytes
  import opened BufRing
  import opened HttpText
  import opened HttpLine
  import opened HttpParse
  import HttpFraming

  datatype Outcome = Again | NeedMore | GotInterim | GotHead | GotBody | Finished | Errored

  /** What a step tells the caller. */
  function OutcomeOf(out: seq<Event>, stop: Stop): Outcome {
    match stop
    case Go =>
      if out == [] then Again
      else (match out[0] case InterimHead(_) => GotInterim case Head(_, _) => GotHead case Body(_) => GotBody)
    case Starved => NeedMore
    case Complete => Finished
    case Refused(_) => Errored
  }

  /** Steps up to the first that has something to tell. */
  function Next(c: Config, p: Parser, src: ByteSeq): Advance
    decreases |src|, p.state == Interim
  {
    StepConsumes(c, p, src);
    var a := Step(c, p, src);
    if a.stop == Go && a.out == [] then Next(c, a.p, a.rest) else a
  }

  /** Driving the parser one report at a time is driving it one step at a time. */
  lemma {:induction false} NextDrives(c: Config, p: Parser, src: ByteSeq)
    ensures var a, d := Next(c, p, src), Drive(c, p, src);
            if a.stop == Go then
              var e := Drive(c, a.p, a.rest);
              d.p == e.p && d.rest == e.rest && d.stop == e.stop && d.events == a.out + e.events
            else d.p == a.p && d.rest == a.rest && d.stop == a.stop && d.events == []
    decreases |src|, p.state == Interim
  {
    hide Step;
    StepConsumes(c, p, src);
    var a := Step(c, p, src);
    if a.stop == Go && a.out == [] {
      NextDrives(c, a.p, a.rest);
      var d := Drive(c, a.p, a.rest);
      assert [] + d.events == d.events;
    }
  }

  class MessageParser {
    const config: Config
    var state: State
    var err: Error
    var headDone: bool
    var head: HeadInfo
    var framing: Framing
    var length: nat
    var bodyTotal: nat
    var headBytes: nat
    var interim: nat
    var bodyReady: nat

    ghost function View(): Parser
      reads this
    {
      Parser(state, err, headDone, head, framing, length, bodyTotal, headBytes, interim)
    }

    constructor (c: Config)
      ensures View() == INIT && config == c
    {
      config := c;
      state, err, headDone := Start, NoError, false;
      head := HeadInfo(UnknownVersion, 0, [], [], [], [], 0);
      framing := Framing(false, false, false, false);
      length, bodyTotal, headBytes, interim, bodyReady := 0, 0, 0, 0, 0;
    }

    /** Every rejection goes through here. */
    method Reject(e: Error) returns (o: Outcome)
      modifies this`state, this`err
      ensures View() == Fail(old(View()), e).p && o == Errored
    {
      state, err := Failed, e;
      return Errored;
    }

    method TakeLine(src: Ring, bareLF: bool) returns (r: LineResult)
      modifies this`headBytes, src
      ensures r == ReadLine(old(src.data), config.lim.maxLineLen, bareLF)
      ensures r.Got? ==> src.data == old(src.data)[r.skip..] && headBytes == (old(headBytes) + r.skip) % U32
      ensures !r.Got? ==> src.data == old(src.data) && headBytes == old(headBytes)
    {
      r := PeekLine(src.data, config.lim.maxLineLen, bareLF);
      if r.Got? {
        src.Skip(r.skip);
        headBytes := (headBytes + r.skip) % U32;
      }
    }

    method ParseStatusLine(line: ByteSeq) returns (o: Outcome)
      modifies this
      ensures var u := OnStatusLine(old(View()), line);
              View() == u.p && o == OutcomeOf(u.out, u.stop)
    {
      hide ParseNumber, ParseVersion;
      var sp1 := FindByte(line, 0, SP);
      if sp1.None? || sp1.value == 0 {
        o := Reject(BadMessage);
        return;
      }
      head := head.(version := ParseVersion(line[..sp1.value]));
      if head.version == UnknownVersion {
        o := Reject(BadMessage);
        return;
      }
      var sp2 := FindByte(line, sp1.value + 1, SP);
      var code := line[sp1.value + 1..if sp2.Some? then sp2.value else |line|];
      var st := ParseNumber(code, 10);
      if st.None? || !(100 <= st.value <= 999) {
        o := Reject(BadMessage);
        return;
      }
      head := head.(status := st.value);
      if sp2.Some? {
        head := head.(reason := line[sp2.value + 1..]);
      }
      state := Headers;
      return Again;
    }

    method ParseRequestLine(line: ByteSeq) returns (o: Outcome)
      modifies this
      ensures var u := OnRequestLine(old(View()), line);
              View() == u.p && o == OutcomeOf(u.out, u.stop)
    {
      hide IsToken, ParseVersion;
      var sp1 := FindByte(line, 0, SP);
      if sp1.None? || sp1.value == 0 {
        o := Reject(BadMessage);
        return;
      }
      var sp2 := FindByte(line, sp1.value + 1, SP);
      if sp2.None? || sp2.value <= sp1.value + 1 {
        o := Reject(BadMessage);
        return;
      }
      head := head.(methodName := line[..sp1.value], target := line[sp1.value + 1..sp2.value]);
      if !IsToken(head.methodName) {
        o := Reject(BadMessage);
        return;
      }
      head := head.(version := ParseVersion(line[sp2.value + 1..]));
      if head.version == UnknownVersion {
        o := Reject(BadMessage);
        return;
      }
      state := Headers;
      return Again;
    }

    /** The one length that every Content-Length gives, if they agree. */
    method AgreeOnLength(values: seq<ByteSeq>) returns (len: Option<nat>)
      ensures len == AgreedLength(values)
    {
      hide ParseNumber;
      if values == [] {
        return None;
      }
      len := ParseNumber(values[0], 10);
      var i := 1;
      while i < |values| && len.Some?
        invariant 1 <= i <= |values|
        invariant len.Some? ==> len == ParseNumber(values[0], 10)
                                && forall k :: 1 <= k < i ==> ParseNumber(values[k], 10) == len
        invariant len.None? ==> AgreedLength(values) == None
      {
        var other := ParseNumber(values[i], 10);
        if other != len {
          len := None;
        }
        i := i + 1;
      }
    }

    /** Chooses how the body is delimited. */
    method Frame(te: bool, cl: bool) returns (o: Outcome)
      modifies this`state, this`framing
      ensures var u := ChooseFraming(config, old(View()), te, cl);
              View() == u.p && o == OutcomeOf(u.out, u.stop)
    {
      if !config.isRequest {
        if head.status == 204 || head.status == 304 || config.toHead {
          framing := framing.(noBody := true);
        }
      } else if !te && !cl {
        framing := framing.(noBody := true);
      }
      if framing.noBody {
        state := Done;
      } else if framing.chunked {
        state := ChunkSize;
      } else if framing.hasLength {
        state := if length > 0 then BodyLength else Done;
      } else {
        state := BodyClose;
        framing := framing.(closeDelimited := true);
      }
      return GotHead;
    }

    method EndHead() returns (o: Outcome)
      modifies this
      ensures var u := FinishHead(config, old(View()));
              View() == u.p && o == OutcomeOf(u.out, u.stop)
    {
      hide Has, HasToken, AgreedLength, ValuesOf, ChooseFraming;
      headDone := true;
      var te := Has(head.headers, Ascii("Transfer-Encoding"));
      var cl := Has(head.headers, Ascii("Content-Length"));
      if te && cl {
        o := Reject(BadMessage);
        return;
      }
      if !config.isRequest && head.status < 200 {
        if te || cl {
          o := Reject(BadMessage);
          return;
        }
        interim := interim + 1;
        if interim > config.lim.maxInterim {
          o := Reject(TooLarge);
          return;
        }
        state := Interim;
        return GotInterim;
      }
      if te {
        if !HasToken(head.headers, Ascii("Transfer-Encoding"), Ascii("chunked")) {
          o := Reject(BadMessage);
          return;
        }
        if head.version == Http10 {
          o := Reject(BadMessage);
          return;
        }
        framing := framing.(chunked := true);
      }
      if cl {
        var len := AgreeOnLength(ValuesOf(head.headers, Ascii("Content-Length")));
        if len.None? {
          o := Reject(BadMessage);
          return;
        }
        framing := framing.(hasLength := true);
        length := len.value;
      }
      o := Frame(te, cl);
    }

    method ParseHeaderLine(line: ByteSeq) returns (o: Outcome)
      modifies this
      ensures var u := OnHeaderLine(config, old(View()), line);
              View() == u.p && o == OutcomeOf(u.out, u.stop)
    {
      hide FinishHead, IsToken, Trim;
      if line == [] {
        o := EndHead();
        return;
      }
      if IsOWS(line[0]) {
        o := Reject(BadMessage);
        return;
      }
      var colon := FindByte(line, 0, COLON);
      if colon.None? || !IsToken(line[..colon.value]) {
        o := Reject(BadMessage);
        return;
      }
      head := head.(headerCount := head.headerCount + 1);
      if head.headerCount > config.lim.maxHeaderCount {
        o := Reject(TooLarge);
        return;
      }
      var h := Header(line[..colon.value], Trim(line[colon.value + 1..]));
      head := head.(headers := head.headers + [h]);
      return Again;
    }

    method ParseChunkSize(line: ByteSeq) returns (o: Outcome)
      modifies this
      ensures var u := OnChunkSize(config, old(View()), line);
              View() == u.p && o == OutcomeOf(u.out, u.stop)
    {
      hide ParseNumber;
      var semi := FindByte(line, 0, SEMICOLON);
      var sz := ParseNumber(if semi.Some? then line[..semi.value] else line, 16);
      if sz.None? {
        o := Reject(BadMessage);
        return;
      }
      if sz.value > config.lim.maxChunkSize {
        o := Reject(TooLarge);
        return;
      }
      if sz.value == 0 {
        state := Trailer;
        return Again;
      }
      length := sz.value;
      state := ChunkData;
      return Again;
    }

    /** What a step leaves in the ring: everything after it, and before that, for the caller to
        drain, any body it reported. */
    ghost predicate Left(src: Ring, a: Advance)
      reads this, src
    {
      if a.stop == Go && |a.out| == 1 && a.out[0].Body? then
        bodyReady <= |src.data| && a.out == [Body(src.data[..bodyReady])] && a.rest == src.data[bodyReady..]
      else a.rest == src.data
    }

    /** Claims what there is of a body at the front of the ring. */
    method EmitBody(src: Ring) returns (o: Outcome)
      requires ReadsBody(state)
      modifies this
      ensures var a := StepBody(config, old(View()), src.data);
              View() == a.p && o == OutcomeOf(a.out, a.stop) && Left(src, a)
    {
      var want := if state == BodyClose then |src.data| else length;
      var n := Min(want, |src.data|);
      if n == 0 {
        return NeedMore;
      }
      if config.lim.maxBodyBytes > 0 && bodyTotal + n > config.lim.maxBodyBytes {
        o := Reject(TooLarge);
        return;
      }
      bodyTotal := bodyTotal + n;
      bodyReady := n;
      if state != BodyClose {
        length := length - n;
        if length == 0 {
          state := if state == BodyLength then Done else ChunkCRLF;
        }
      }
      return GotBody;
    }

    /** What a complete line makes of the parser. */
    method ParseLine(line: ByteSeq) returns (o: Outcome)
      requires ReadsLine(state)
      modifies this
      ensures var u := OnLine(config, old(View()), line);
              View() == u.p && o == OutcomeOf(u.out, u.stop)
    {
      hide OnStatusLine, OnRequestLine, OnHeaderLine, OnChunkSize;
      match state
      case Start =>
        if line == [] {
          return Again;
        }
        if config.isRequest {
          o := ParseRequestLine(line);
        } else {
          o := ParseStatusLine(line);
        }
      case Headers =>
        o := ParseHeaderLine(line);
      case ChunkSize =>
        o := ParseChunkSize(line);
      case ChunkCRLF =>
        if line != [] {
          o := Reject(BadMessage);
          return;
        }
        state := ChunkSize;
        return Again;
      case Trailer =>
        if line != [] {
          return Again;
        }
        state := Done;
        return Finished;
    }

    /** The states that read a line, the head's own budget first. */
    method LineOnce(src: Ring) returns (o: Outcome)
      requires ReadsLine(state)
      modifies this, src
      ensures var a := StepLine(config, old(View()), old(src.data));
              View() == a.p && o == OutcomeOf(a.out, a.stop) && a.rest == src.data
    {
      hide OnLine, ReadLine, AtEdge;
      if InHead(state) && headBytes > config.lim.maxHeadBytes {
        o := Reject(TooLarge);
        return;
      }
      var lr := TakeLine(src, InHead(state));
      match lr
      case Incomplete => return NeedMore;
      case TooLong => o := Reject(TooLarge);
      case Malformed => o := Reject(BadMessage);
      case Got(line, _) => o := ParseLine(line);
    }

    /** One unit: a line, a run of body, or the turn from an interim response to the next head. */
    method StepOnce(src: Ring) returns (o: Outcome)
      modifies this, src
      ensures var a := Step(config, old(View()), old(src.data));
              View() == a.p && o == OutcomeOf(a.out, a.stop) && Left(src, a)
    {
      hide StepLine, StepBody;
      match state
      case Failed => return Errored;
      case Done => return Finished;
      case Interim =>
        head := head.(reason := [], headers := [], status := 0, version := UnknownVersion, headerCount := 0);
        headDone := false;
        state := Start;
        return Again;
      case BodyLength => o := EmitBody(src);
      case BodyClose => o := EmitBody(src);
      case ChunkData => o := EmitBody(src);
      case _ =>
        LineReportsNoBody(config, View(), src.data);
        o := LineOnce(src);
    }

    /** Steps until there is something to tell. */
    method ParserStep(src: Ring) returns (o: Outcome)
      modifies this, src
      ensures var a := Next(config, old(View()), old(src.data));
              View() == a.p && o == OutcomeOf(a.out, a.stop) && o != Again && Left(src, a)
    {
      hide Step;
      ghost var goal := Next(config, View(), src.data);
      while true
        invariant goal == Next(config, View(), src.data)
        decreases |src.data|, state == Interim
      {
        StepConsumes(config, View(), src.data);
        o := StepOnce(src);
        if o != Again {
          return;
        }
      }
    }

    /** The peer has closed. */
    method ParserEOF() returns (o: Outcome)
      modifies this`state, this`err
      ensures var u := HttpFraming.AtEOF(old(View()));
              View() == u.p && o == OutcomeOf(u.out, u.stop)
    {
      match state
      case BodyClose =>
        state := Done;
        return Finished;
      case Done => return Finished;
      case Failed => return Errored;
      case _ => o := Reject(Closed);
    }
  }

  lemma LineReportsNoBody(c: Config, p: Parser, src: ByteSeq)
    requires ReadsLine(p.state)
    ensures var a := StepLine(c, p, src);
            |a.out| <= 1 && (a.out != [] ==> !a.out[0].Body?)
  {
    hide ReadLine, AtEdge, Has, HasToken, AgreedLength, ValuesOf, ParseNumber, IsToken, Trim;
  }
}
