/** The HTTP/1.1 message parser (sections 6.3 and 7.1 of RFC 9112): one state machine for requests
    and responses, fed whatever has arrived. */
module HttpParse {
  import opened Bytes
  import opened HttpText
  import opened HttpLine

  const U32: nat := 0x1_0000_0000

  datatype Version = UnknownVersion | Http10 | Http11

  datatype State = Start | Headers | BodyLength | BodyClose | ChunkSize | ChunkData | ChunkCRLF
                 | Trailer | Interim | Done | Failed

  datatype Error = NoError | BadMessage | TooLarge | Closed

  datatype Limits = Limits(maxLineLen: nat, maxHeaderCount: nat, maxHeadBytes: nat,
                           maxBodyBytes: nat, maxChunkSize: nat, maxInterim: nat)

  /** What is fixed for one message: its direction, whether it answers a HEAD, and the limits. */
  datatype Config = Config(isRequest: bool, toHead: bool, lim: Limits)

  datatype Header = Header(name: ByteSeq, value: ByteSeq)

  /** The start line and the header block. */
  datatype HeadInfo = HeadInfo(
    version: Version,
    status: nat,
    reason: ByteSeq,
    methodName: ByteSeq,
    target: ByteSeq,
    headers: seq<Header>,
    headerCount: nat)

  /** How the body is delimited, decided once the head is complete. */
  datatype Framing = Framing(noBody: bool, chunked: bool, hasLength: bool, closeDelimited: bool)

  datatype Parser = Parser(
    state: State,
    err: Error,
    headDone: bool,
    head: HeadInfo,
    framing: Framing,
    length: nat,        // bytes left of a counted body or of the current chunk
    bodyTotal: nat,     // body bytes reported so far
    headBytes: nat,     // line bytes consumed, a 32-bit count
    interim: nat)

  const INIT := Parser(Start, NoError, false, HeadInfo(UnknownVersion, 0, [], [], [], [], 0),
                       Framing(false, false, false, false), 0, 0, 0, 0)

  /** What the caller is told, with what it can read off the parser when it is told. */
  datatype Event =
    | InterimHead(p: Parser)
    | Head(p: Parser, total: Option<nat>)
    | Body(bytes: ByteSeq)

  datatype Stop = Go | Starved | Complete | Refused(overBody: bool)

  /** Where one step leaves the parser. `edge` marks a line decided by its very last byte. */
  datatype Advance = Advance(p: Parser, rest: ByteSeq, out: seq<Event>, stop: Stop, edge: bool)

  /** What a line, or a run of body, makes of the parser. */
  datatype Turn = Turn(p: Parser, out: seq<Event>, stop: Stop)

  function Fail(p: Parser, err: Error): Turn {
    Turn(p.(state := Failed, err := err), [], Refused(false))
  }

  // ----- Header lookups

  predicate Has(hs: seq<Header>, name: ByteSeq) {
    exists i :: 0 <= i < |hs| && Eqi(hs[i].name, name)
  }

  function ValueIn(h: Header, name: ByteSeq): seq<ByteSeq> {
    if Eqi(h.name, name) then [h.value] else []
  }

  function ValuesOf(hs: seq<Header>, name: ByteSeq): seq<ByteSeq> {
    if hs == [] then [] else ValueIn(hs[0], name) + ValuesOf(hs[1..], name)
  }

  predicate HasToken(hs: seq<Header>, name: ByteSeq, token: ByteSeq) {
    exists v, t :: v in ValuesOf(hs, name) && t in SplitCommas(v) && Eqi(Trim(t), token)
  }

  // ----- Start lines

  function ParseVersion(s: ByteSeq): Version {
    if s == Ascii("HTTP/1.1") then Http11
    else if s == Ascii("HTTP/1.0") then Http10
    else UnknownVersion
  }

  function OnStatusLine(p: Parser, line: ByteSeq): Turn {
    match FindByte(line, 0, SP)
    case None => Fail(p, BadMessage)
    case Some(sp1) =>
      if sp1 == 0 then Fail(p, BadMessage)
      else
        var p := p.(head := p.head.(version := ParseVersion(line[..sp1])));
        if p.head.version == UnknownVersion then Fail(p, BadMessage)
        else
          var sp2 := FindByte(line, sp1 + 1, SP);
          match ParseNumber(line[sp1 + 1..if sp2.Some? then sp2.value else |line|], 10)
          case None => Fail(p, BadMessage)
          case Some(st) =>
            if !(100 <= st <= 999) then Fail(p, BadMessage)
            else
              var reason := if sp2.Some? then line[sp2.value + 1..] else p.head.reason;
              Turn(p.(head := p.head.(status := st, reason := reason), state := Headers), [], Go)
  }

  function OnRequestLine(p: Parser, line: ByteSeq): Turn {
    match FindByte(line, 0, SP)
    case None => Fail(p, BadMessage)
    case Some(sp1) =>
      match FindByte(line, sp1 + 1, SP)
      case None => Fail(p, BadMessage)
      case Some(sp2) =>
        if sp1 == 0 || sp2 <= sp1 + 1 then Fail(p, BadMessage)
        else
          var p := p.(head := p.head.(methodName := line[..sp1], target := line[sp1 + 1..sp2]));
          if !IsToken(p.head.methodName) then Fail(p, BadMessage)
          else
            var p := p.(head := p.head.(version := ParseVersion(line[sp2 + 1..])));
            if p.head.version == UnknownVersion then Fail(p, BadMessage)
            else Turn(p.(state := Headers), [], Go)
  }

  // ----- Header fields, and the decision they lead to

  /** The length every Content-Length agrees on. */
  function AgreedLength(values: seq<ByteSeq>): Option<nat> {
    if values == [] then None
    else
      var len := ParseNumber(values[0], 10);
      if len.Some? && forall i :: 1 <= i < |values| ==> ParseNumber(values[i], 10) == len
      then len else None
  }

  /** How many body bytes a message just framed will carry, if that is known. */
  function BodyTotal(p: Parser): Option<nat> {
    if p.framing.noBody then Some(0)
    else if p.framing.chunked || p.framing.closeDelimited then None
    else Some(p.length)
  }

  /** Chooses the body's framing, all the headers being in. */
  function ChooseFraming(c: Config, p: Parser, te: bool, cl: bool): Turn {
    var noBody := if c.isRequest then !te && !cl
                  else p.head.status == 204 || p.head.status == 304 || c.toHead;
    var p := p.(framing := p.framing.(noBody := p.framing.noBody || noBody));
    var p :=
      if p.framing.noBody then p.(state := Done)
      else if p.framing.chunked then p.(state := ChunkSize)
      else if p.framing.hasLength then p.(state := if p.length > 0 then BodyLength else Done)
      else p.(state := BodyClose, framing := p.framing.(closeDelimited := true));
    Turn(p, [Head(p, BodyTotal(p))], Go)
  }

  function FinishHead(c: Config, p: Parser): Turn {
    var p := p.(headDone := true);
    var te := Has(p.head.headers, Ascii("Transfer-Encoding"));
    var cl := Has(p.head.headers, Ascii("Content-Length"));
    if te && cl then Fail(p, BadMessage)
    else if !c.isRequest && p.head.status < 200 then
      if te || cl then Fail(p, BadMessage)
      else
        var p := p.(interim := p.interim + 1);
        if p.interim > c.lim.maxInterim then Fail(p, TooLarge)
        else
          var p := p.(state := Interim);
          Turn(p, [InterimHead(p)], Go)
    else if te then
      if !HasToken(p.head.headers, Ascii("Transfer-Encoding"), Ascii("chunked")) then Fail(p, BadMessage)
      else if p.head.version == Http10 then Fail(p, BadMessage)
      else ChooseFraming(c, p.(framing := p.framing.(chunked := true)), te, cl)
    else if cl then
      match AgreedLength(ValuesOf(p.head.headers, Ascii("Content-Length")))
      case None => Fail(p, BadMessage)
      case Some(len) => ChooseFraming(c, p.(framing := p.framing.(hasLength := true), length := len), te, cl)
    else ChooseFraming(c, p, te, cl)
  }

  function OnHeaderLine(c: Config, p: Parser, line: ByteSeq): Turn {
    if line == [] then FinishHead(c, p)
    else if IsOWS(line[0]) then Fail(p, BadMessage)
    else match FindByte(line, 0, COLON)
      case None => Fail(p, BadMessage)
      case Some(colon) =>
        if !IsToken(line[..colon]) then Fail(p, BadMessage)
        else
          var p := p.(head := p.head.(headerCount := p.head.headerCount + 1));
          if p.head.headerCount > c.lim.maxHeaderCount then Fail(p, TooLarge)
          else
            var h := Header(line[..colon], Trim(line[colon + 1..]));
            Turn(p.(head := p.head.(headers := p.head.headers + [h])), [], Go)
  }

  // ----- Chunks

  function OnChunkSize(c: Config, p: Parser, line: ByteSeq): Turn {
    var semi := FindByte(line, 0, SEMICOLON);
    match ParseNumber(if semi.Some? then line[..semi.value] else line, 16)
    case None => Fail(p, BadMessage)
    case Some(sz) =>
      if sz > c.lim.maxChunkSize then Fail(p, TooLarge)
      else if sz == 0 then Turn(p.(state := Trailer), [], Go)
      else Turn(p.(length := sz, state := ChunkData), [], Go)
  }

  // ----- One step

  predicate ReadsLine(s: State) { s.Start? || s.Headers? || s.ChunkSize? || s.ChunkCRLF? || s.Trailer? }

  predicate ReadsBody(s: State) { s.BodyLength? || s.BodyClose? || s.ChunkData? }

  predicate InHead(s: State) { s.Start? || s.Headers? }

  /** A complete line, in a state that reads them. */
  function OnLine(c: Config, p: Parser, line: ByteSeq): Turn
    requires ReadsLine(p.state)
  {
    match p.state
    case Start =>
      if line == [] then Turn(p, [], Go)
      else if c.isRequest then OnRequestLine(p, line) else OnStatusLine(p, line)
    case Headers => OnHeaderLine(c, p, line)
    case ChunkSize => OnChunkSize(c, p, line)
    case ChunkCRLF =>
      if line != [] then Fail(p, BadMessage) else Turn(p.(state := ChunkSize), [], Go)
    case Trailer =>
      if line == [] then Turn(p.(state := Done), [], Complete) else Turn(p, [], Go)
  }

  /** A run of body bytes, which the caller has drained by the next step. */
  function OnBody(c: Config, p: Parser, run: ByteSeq): Turn
    requires ReadsBody(p.state) && (p.state.BodyClose? || |run| <= p.length)
  {
    if c.lim.maxBodyBytes > 0 && p.bodyTotal + |run| > c.lim.maxBodyBytes then
      Turn(p.(state := Failed, err := TooLarge), [], Refused(true))
    else
      var p := p.(bodyTotal := p.bodyTotal + |run|);
      if p.state == BodyClose then Turn(p, [Body(run)], Go)
      else
        var p := p.(length := p.length - |run|);
        var p := if p.length > 0 then p
                 else p.(state := if p.state == BodyLength then Done else ChunkCRLF);
        Turn(p, [Body(run)], Go)
  }

  /** Clears an interim response the caller has seen, keeping the head budget it has used. */
  function ClearInterim(p: Parser): Parser {
    p.(head := p.head.(reason := [], headers := [], status := 0, version := UnknownVersion,
                       headerCount := 0),
       headDone := false, state := Start)
  }

  /** How many of `have` bytes are body in a state that reads it. */
  function BodyRun(p: Parser, have: nat): nat {
    if p.state == BodyClose then have else Min(have, p.length)
  }

  function StepLine(c: Config, p: Parser, src: ByteSeq): Advance
    requires ReadsLine(p.state)
  {
    if InHead(p.state) && p.headBytes > c.lim.maxHeadBytes then
      var t := Fail(p, TooLarge);
      Advance(t.p, src, t.out, t.stop, false)
    else
      var bareLF := InHead(p.state);
      var edge := AtEdge(src, c.lim.maxLineLen, bareLF);
      match ReadLine(src, c.lim.maxLineLen, bareLF)
      case Incomplete => Advance(p, src, [], Starved, edge)
      case TooLong =>
        var t := Fail(p, TooLarge);
        Advance(t.p, src, t.out, t.stop, edge)
      case Malformed =>
        var t := Fail(p, BadMessage);
        Advance(t.p, src, t.out, t.stop, edge)
      case Got(line, skip) =>
        var t := OnLine(c, p.(headBytes := (p.headBytes + skip) % U32), line);
        Advance(t.p, src[skip..], t.out, t.stop, edge)
  }

  function StepBody(c: Config, p: Parser, src: ByteSeq): Advance
    requires ReadsBody(p.state)
  {
    var n := BodyRun(p, |src|);
    if n == 0 then Advance(p, src, [], Starved, false)
    else
      var t := OnBody(c, p, src[..n]);
      Advance(t.p, if t.stop == Go then src[n..] else src, t.out, t.stop, false)
  }

  /** One unit: a line, a run of body, or the turn from an interim response to the next head. */
  function Step(c: Config, p: Parser, src: ByteSeq): Advance {
    match p.state
    case Failed => Advance(p, src, [], Refused(false), false)
    case Done => Advance(p, src, [], Complete, false)
    case Interim => Advance(ClearInterim(p), src, [], Go, false)
    case BodyLength => StepBody(c, p, src)
    case BodyClose => StepBody(c, p, src)
    case ChunkData => StepBody(c, p, src)
    case _ => StepLine(c, p, src)
  }

  predicate Ended(p: Parser) { p.state.Done? || p.state.Failed? }

  lemma FinishHeadShape(c: Config, p: Parser)
    ensures var t := FinishHead(c, p);
            t.stop == Go || (t.stop == Refused(false) && t.out == [] && t.p.state == Failed)
  {
    hide Has, HasToken, AgreedLength, ValuesOf;
  }

  lemma StartLineShape(p: Parser, line: ByteSeq)
    ensures var t := OnStatusLine(p, line);
            t.out == [] && (t.stop == Go || (t.stop == Refused(false) && t.p.state == Failed))
    ensures var t := OnRequestLine(p, line);
            t.out == [] && (t.stop == Go || (t.stop == Refused(false) && t.p.state == Failed))
  {
    hide ParseNumber, ParseVersion, IsToken;
  }

  lemma OnLineShape(c: Config, p: Parser, line: ByteSeq)
    requires ReadsLine(p.state)
    ensures var t := OnLine(c, p, line);
            || t.stop == Go
            || (t.stop == Refused(false) && t.out == [] && t.p.state == Failed)
            || (t.stop == Complete && t.out == [] && t.p.state == Done)
  {
    hide FinishHead, OnStatusLine, OnRequestLine, ParseNumber, IsToken, Trim;
    StartLineShape(p, line);
    FinishHeadShape(c, p);
  }

  /** The order in which the loop makes progress: bytes left, then leaving the Interim state. */
  lemma StepConsumes(c: Config, p: Parser, src: ByteSeq)
    ensures var a := Step(c, p, src);
            && (a.stop == Go ==>
                  |a.rest| < |src| || (a.rest == src && p.state == Interim && a.p.state != Interim))
            && (a.stop == Starved ==> a.p == p && a.rest == src && a.out == [] && !Ended(p))
            && (a.stop.Complete? || a.stop.Refused? ==>
                  Ended(a.p) && a.out == [] && (a.stop.Complete? <==> a.p.state.Done?))
  {
    hide StepLine;
    if ReadsLine(p.state) {
      LineConsumes(c, p, src);
    }
  }

  lemma LineConsumes(c: Config, p: Parser, src: ByteSeq)
    requires ReadsLine(p.state)
    ensures var a := StepLine(c, p, src);
            && (a.stop == Go ==> |a.rest| < |src|)
            && (a.stop == Starved ==> a.p == p && a.rest == src && a.out == [])
            && (a.stop.Complete? || a.stop.Refused? ==>
                  Ended(a.p) && a.out == [] && (a.stop.Complete? <==> a.p.state.Done?))
  {
    hide OnLine, ReadLine, AtEdge;
    var r := ReadLine(src, c.lim.maxLineLen, InHead(p.state));
    if r.Got? {
      OnLineShape(c, p.(headBytes := (p.headBytes + r.skip) % U32), r.line);
    }
  }

  datatype Run = Run(p: Parser, rest: ByteSeq, events: seq<Event>, stop: Stop, edge: bool)

  /** Everything that happens before the parser wants more bytes or the message has ended. */
  function Drive(c: Config, p: Parser, src: ByteSeq): Run
    decreases |src|, p.state == Interim
  {
    StepConsumes(c, p, src);
    var a := Step(c, p, src);
    if a.stop != Go then Run(a.p, a.rest, a.out, a.stop, a.edge)
    else
      var d := Drive(c, a.p, a.rest);
      d.(events := a.out + d.events, edge := a.edge || d.edge)
  }

  // ----- What a run amounts to, however its body was split

  function HeadIn(e: Event): seq<Event> { if e.Body? then [] else [e] }

  function BytesIn(e: Event): ByteSeq { if e.Body? then e.bytes else [] }

  /** The interim and final heads reported, in order. */
  function Heads(events: seq<Event>): seq<Event> {
    if events == [] then [] else HeadIn(events[0]) + Heads(events[1..])
  }

  /** The body reported, all runs together. */
  function BodyOf(events: seq<Event>): ByteSeq {
    if events == [] then [] else BytesIn(events[0]) + BodyOf(events[1..])
  }

  lemma {:induction false} HeadsConcat(a: seq<Event>, b: seq<Event>)
    ensures Heads(a + b) == Heads(a) + Heads(b)
  {
    hide HeadIn;
    if a == [] {
      assert a + b == b;
    } else {
      HeadsConcat(a[1..], b);
      assert (a + b)[0] == a[0] && (a + b)[1..] == a[1..] + b;
      var x, y, z := HeadIn(a[0]), Heads(a[1..]), Heads(b);
      assert x + (y + z) == x + y + z;
    }
  }

  lemma {:induction false} BodyConcat(a: seq<Event>, b: seq<Event>)
    ensures BodyOf(a + b) == BodyOf(a) + BodyOf(b)
  {
    hide BytesIn;
    if a == [] {
      assert a + b == b;
    } else {
      BodyConcat(a[1..], b);
      assert (a + b)[0] == a[0] && (a + b)[1..] == a[1..] + b;
      var x, y, z := BytesIn(a[0]), BodyOf(a[1..]), BodyOf(b);
      assert x + (y + z) == x + y + z;
    }
  }

  lemma OneRun(x: ByteSeq)
    ensures BodyOf([Body(x)]) == x && Heads([Body(x)]) == []
  {
    assert [Body(x)][1..] == [];
  }

  lemma NothingReported()
    ensures BodyOf([]) == []
    ensures Heads([]) == []
  {
  }

  // ----- Fragmentation

  /** The input ends inside a run of body that goes on past it. */
  predicate Partial(p: Parser, src: ByteSeq) {
    src != [] && ReadsBody(p.state) && (p.state == BodyClose || |src| < p.length)
  }

  lemma StepExtends(c: Config, p: Parser, src: ByteSeq, more: ByteSeq)
    requires !Partial(p, src) && Step(c, p, src).stop != Starved
    requires !Step(c, p, src + more).edge
    ensures var a := Step(c, p, src);
            !a.edge && Step(c, p, src + more) == a.(rest := a.rest + more)
  {
    hide OnLine, OnBody, ReadLine, AtEdge;
    if ReadsLine(p.state) {
      LineExtends(c, p, src, more);
    } else if ReadsBody(p.state) {
      var n := BodyRun(p, |src|);
      assert (src + more)[..n] == src[..n] && (src + more)[n..] == src[n..] + more;
    }
  }

  lemma LineExtends(c: Config, p: Parser, src: ByteSeq, more: ByteSeq)
    requires ReadsLine(p.state) && StepLine(c, p, src).stop != Starved
    requires !StepLine(c, p, src + more).edge
    ensures var a := StepLine(c, p, src);
            !a.edge && StepLine(c, p, src + more) == a.(rest := a.rest + more)
  {
    hide OnLine, ReadLine, AtEdge;
    if !(InHead(p.state) && p.headBytes > c.lim.maxHeadBytes) {
      var limit, bareLF := c.lim.maxLineLen, InHead(p.state);
      EdgeExtends(src, more, limit, bareLF);
      ReadLineExtends(src, more, limit, bareLF);
      var r := ReadLine(src, limit, bareLF);
      if r.Got? {
        assert (src + more)[r.skip..] == src[r.skip..] + more;
      }
    }
  }

  lemma StarvedEdge(c: Config, p: Parser, src: ByteSeq, more: ByteSeq)
    requires Step(c, p, src).stop == Starved && !Step(c, p, src + more).edge
    ensures !Step(c, p, src).edge
  {
    hide OnLine, OnBody, ReadLine, AtEdge;
    if ReadsLine(p.state) {
      EdgeExtends(src, more, c.lim.maxLineLen, InHead(p.state));
    }
  }

  /** What joining two runs of body comes to: `a` and then `b`, against `w` for both at once. */
  ghost predicate Joined(a: Turn, b: Turn, w: Turn) {
    && b.stop == w.stop && Heads(b.out) == []
    && b.p.state == w.p.state && b.p.err == w.p.err
    && (w.stop == Go ==> b.p == w.p && BodyOf(w.out) == BodyOf(a.out) + BodyOf(b.out))
  }

  predicate BodyTurn(t: Turn) {
    Heads(t.out) == [] && (t.stop == Go || (t.stop == Refused(true) && t.out == []))
  }

  lemma OneTurn(c: Config, p: Parser, x: ByteSeq)
    requires ReadsBody(p.state) && (p.state.BodyClose? || |x| <= p.length)
    ensures BodyTurn(OnBody(c, p, x))
    ensures OnBody(c, p, x).stop == Go ==> OnBody(c, p, x).out == [Body(x)]
  {
    OneRun(x);
    NothingReported();
  }

  lemma RunsJoin(c: Config, p: Parser, x: ByteSeq, y: ByteSeq)
    requires ReadsBody(p.state) && x != [] && y != []
    requires p.state.BodyClose? || |x + y| <= p.length
    ensures var a, w := OnBody(c, p, x), OnBody(c, p, x + y);
            && (w.stop == Go ==> a.stop == Go)
            && (a.stop == Go ==>
                  && a.p.state == p.state
                  && (p.state.BodyClose? || a.p.length == p.length - |x|)
                  && Joined(a, OnBody(c, a.p, y), w))
  {
    hide Heads, BodyOf;
    OneRun(x);
    OneRun(y);
    OneRun(x + y);
    OneTurn(c, p, x + y);
    var a := OnBody(c, p, x);
    if a.stop == Go {
      OneTurn(c, a.p, y);
    }
  }

  lemma BodyStep(c: Config, p: Parser, src: ByteSeq)
    requires ReadsBody(p.state) && BodyRun(p, |src|) > 0
    ensures var n := BodyRun(p, |src|);
            var t := OnBody(c, p, src[..n]);
            Step(c, p, src)
            == Advance(t.p, if t.stop == Go then src[n..] else src, t.out, t.stop, false)
  {
    hide OnBody;
  }

  /** A run of body cut in two reads the same as one that was not. */
  lemma PartialJoins(c: Config, p: Parser, src: ByteSeq, more: ByteSeq)
    requires Partial(p, src) && more != []
    ensures var a, w := Step(c, p, src), Step(c, p, src + more);
            && !a.edge && !w.edge
            && BodyTurn(Turn(a.p, a.out, a.stop)) && BodyTurn(Turn(w.p, w.out, w.stop))
            && (w.stop == Go ==> a.stop == Go)
            && (a.stop == Go ==>
                  && a.rest == [] && ReadsBody(a.p.state)
                  && (a.p.state.BodyClose? || a.p.length > 0)
                  && var b := Step(c, a.p, more);
                     && !b.edge && (w.stop == Go ==> b.rest == w.rest)
                     && Joined(Turn(a.p, a.out, a.stop), Turn(b.p, b.out, b.stop),
                               Turn(w.p, w.out, w.stop)))
  {
    hide OnBody, Heads, BodyOf, Step;
    var n := BodyRun(p, |src + more|);
    var k := n - |src|;
    assert (src + more)[..n] == src + more[..k] && (src + more)[n..] == more[k..];
    assert src[..|src|] == src && src[|src|..] == [];
    BodyStep(c, p, src);
    BodyStep(c, p, src + more);
    OneTurn(c, p, src);
    OneTurn(c, p, src + more[..k]);
    RunsJoin(c, p, src, more[..k]);
    var a := Step(c, p, src);
    if a.stop == Go {
      BodyStep(c, a.p, more);
    }
  }

  predicate Over(d: Run) { d.stop == Refused(true) }

  /** A message that has ended stays ended, and what follows it is left unread. */
  lemma EndedStays(c: Config, p: Parser, src: ByteSeq)
    requires Ended(p)
    ensures Drive(c, p, src)
            == Run(p, src, [], if p.state.Done? then Complete else Refused(false), false)
  {
  }

  lemma {:induction false} DriveStops(c: Config, p: Parser, src: ByteSeq)
    ensures var d := Drive(c, p, src);
            && d.stop != Go
            && (d.stop == Starved ==>
                  !Ended(d.p) && Drive(c, d.p, d.rest).stop == Starved
                  && Drive(c, d.p, d.rest) == Run(d.p, d.rest, [], Starved, Drive(c, d.p, d.rest).edge)
                  && (Drive(c, d.p, d.rest).edge ==> d.edge))
            && (d.stop != Starved ==> Ended(d.p) && (d.stop == Complete <==> d.p.state.Done?))
    decreases |src|, p.state == Interim
  {
    hide Step;
    StepConsumes(c, p, src);
    var a := Step(c, p, src);
    if a.stop == Go {
      DriveStops(c, a.p, a.rest);
    }
  }

  /** How a run over the whole of an input relates to runs over its two parts. */
  ghost predicate SplitAgrees(w: Run, d: Run, e: Run) {
    && !d.edge && !e.edge
    && Heads(w.events) == Heads(d.events + e.events)
    && w.p.state == e.p.state && w.p.err == e.p.err
    && (Over(w) <==> Over(d) || Over(e))
    && (!Over(w) ==> w.p == e.p && w.rest == e.rest && w.stop == e.stop
                     && BodyOf(w.events) == BodyOf(d.events + e.events))
    && (Over(w) ==> BodyOf(w.events) <= BodyOf(d.events + e.events))
  }

  /** Stopping after any part of the input and resuming when the rest has arrived changes nothing,
      so long as no line is decided by its very last byte; and a body over its limit is refused
      later, once its last permitted bytes have been reported. */
  lemma {:induction false} DriveSplits(c: Config, p: Parser, a: ByteSeq, b: ByteSeq)
    requires !Drive(c, p, a + b).edge
    ensures var d := Drive(c, p, a);
            SplitAgrees(Drive(c, p, a + b), d, Drive(c, d.p, d.rest + b))
    decreases |a|, p.state == Interim
  {
    hide Step, Heads, BodyOf;
    StepConsumes(c, p, a);
    var s, d := Step(c, p, a), Drive(c, p, a);
    if b == [] {
      assert a + b == a && d.rest + b == d.rest;
      DriveStops(c, p, a);
      if Ended(d.p) {
        EndedStays(c, d.p, d.rest);
      }
      assert d.events + [] == d.events;
    } else if s.stop == Starved {
      StarvedEdge(c, p, a, b);
      assert [] + Drive(c, p, a + b).events == Drive(c, p, a + b).events;
    } else if Partial(p, a) {
      PartialSplits(c, p, a, b);
    } else {
      StepConsumes(c, p, a + b);
      StepExtends(c, p, a, b);
      if s.stop != Go {
        EndedStays(c, s.p, s.rest + b);
        assert d.events + [] == d.events;
      } else {
        DriveSplits(c, s.p, s.rest, b);
        StepPrepends(s.out, Drive(c, s.p, s.rest + b), Drive(c, s.p, s.rest),
                     Drive(c, d.p, d.rest + b));
      }
    }
  }

  lemma StepPrepends(out: seq<Event>, w: Run, d: Run, e: Run)
    requires SplitAgrees(w, d, e)
    ensures SplitAgrees(w.(events := out + w.events), d.(events := out + d.events), e)
  {
    hide Heads, BodyOf;
    HeadsConcat(out, w.events);
    HeadsConcat(out, d.events + e.events);
    BodyConcat(out, w.events);
    BodyConcat(out, d.events + e.events);
    assert out + d.events + e.events == out + (d.events + e.events);
  }

  lemma StarvedInBody(c: Config, p: Parser)
    requires ReadsBody(p.state) && (p.state.BodyClose? || p.length > 0)
    ensures Drive(c, p, []) == Run(p, [], [], Starved, false)
  {
  }

  lemma PartialSplits(c: Config, p: Parser, a: ByteSeq, b: ByteSeq)
    requires Partial(p, a) && b != [] && !Drive(c, p, a + b).edge
    ensures var d := Drive(c, p, a);
            SplitAgrees(Drive(c, p, a + b), d, Drive(c, d.p, d.rest + b))
  {
    hide Step, Heads, BodyOf;
    PartialJoins(c, p, a, b);
    StepConsumes(c, p, a);
    StepConsumes(c, p, a + b);
    NothingReported();
    var s, w := Step(c, p, a), Step(c, p, a + b);
    var d := Drive(c, p, a);
    if s.stop == Go {
      StarvedInBody(c, s.p);
      assert s.out + [] == s.out;
      assert d == Run(s.p, [], s.out, Starved, false);
      StepConsumes(c, s.p, b);
      var t, e := Step(c, s.p, b), Drive(c, s.p, b);
      assert [] + b == b;
      HeadsConcat(s.out, e.events);
      BodyConcat(s.out, e.events);
      if w.stop == Go {
        var tail := Drive(c, w.p, w.rest);
        HeadsConcat(w.out, tail.events);
        HeadsConcat(t.out, tail.events);
        BodyConcat(w.out, tail.events);
        BodyConcat(t.out, tail.events);
      }
    } else {
      EndedStays(c, s.p, s.rest + b);
      assert s.out + [] == s.out;
      RefusedForSize(c, p, a);
      RefusedForSize(c, p, a + b);
    }
  }

  lemma RefusedForSize(c: Config, p: Parser, src: ByteSeq)
    ensures Step(c, p, src).stop == Refused(true) ==> Step(c, p, src).p.err == TooLarge
  {
    hide ReadLine, AtEdge, OnLine;
    if ReadsLine(p.state) {
      var r := ReadLine(src, c.lim.maxLineLen, InHead(p.state));
      if r.Got? {
        OnLineShape(c, p.(headBytes := (p.headBytes + r.skip) % U32), r.line);
      }
    }
  }

  // ----- Any number of pieces

  /** A stream delivered in pieces: each piece is added to what the parser left behind. */
  function Feed(c: Config, d: Run, chunks: seq<ByteSeq>): Run
    decreases |chunks|
  {
    if chunks == [] then d
    else Feed(c, Resume(d, Drive(c, d.p, d.rest + chunks[0])), chunks[1..])
  }

  function Resume(d: Run, e: Run): Run {
    Run(e.p, e.rest, d.events + e.events, if Over(d) then d.stop else e.stop, d.edge || e.edge)
  }

  const BEGIN := Run(INIT, [], [], Starved, false)

  function Join(chunks: seq<ByteSeq>): ByteSeq {
    if chunks == [] then [] else chunks[0] + Join(chunks[1..])
  }

  /** A run over pieces of an input agrees with the run over all of it. */
  ghost predicate Agrees(w: Run, f: Run) {
    && Heads(f.events) == Heads(w.events)
    && f.p.state == w.p.state && f.p.err == w.p.err
    && (Over(f) <==> Over(w))
    && (!Over(w) ==> f.p == w.p && f.rest == w.rest && f.stop == w.stop
                     && BodyOf(f.events) == BodyOf(w.events))
    && (Over(w) ==> Ended(w.p) && BodyOf(w.events) <= BodyOf(f.events))
  }

  lemma AgreesStep(c: Config, p: Parser, src: ByteSeq, f: Run, chunk: ByteSeq)
    requires Agrees(Drive(c, p, src), f) && !Drive(c, p, src + chunk).edge
    ensures Agrees(Drive(c, p, src + chunk), Resume(f, Drive(c, f.p, f.rest + chunk)))
  {
    hide Step, Heads, BodyOf, Drive;
    var w := Drive(c, p, src);
    DriveSplits(c, p, src, chunk);
    DriveStops(c, p, src + chunk);
    var e := Drive(c, f.p, f.rest + chunk);
    if Over(w) {
      EndedStays(c, w.p, w.rest + chunk);
      EndedStays(c, f.p, f.rest + chunk);
      assert w.events + [] == w.events && f.events + [] == f.events;
    } else {
      HeadsConcat(f.events, e.events);
      HeadsConcat(w.events, e.events);
      BodyConcat(f.events, e.events);
      BodyConcat(w.events, e.events);
    }
  }

  lemma {:induction false} FeedAgrees(c: Config, p: Parser, src: ByteSeq, f: Run, chunks: seq<ByteSeq>)
    requires Agrees(Drive(c, p, src), f) && !Drive(c, p, src + Join(chunks)).edge
    ensures Agrees(Drive(c, p, src + Join(chunks)), Feed(c, f, chunks))
    decreases |chunks|
  {
    hide Drive, Agrees, Resume;
    if chunks == [] {
      assert src + Join(chunks) == src;
    } else {
      assert src + Join(chunks) == src + chunks[0] + Join(chunks[1..]);
      DriveSplits(c, p, src + chunks[0], Join(chunks[1..]));
      AgreesStep(c, p, src, f, chunks[0]);
      FeedAgrees(c, p, src + chunks[0], Resume(f, Drive(c, f.p, f.rest + chunks[0])), chunks[1..]);
    }
  }

  /** Every way of cutting a stream into reads reports the same interim and final heads and ends
      the same way, if no line in it is decided by byte `maxLineLen + 2`; and the same body and the
      same state unless the body limit is crossed, when the pieces report at least as much. */
  lemma FragmentationIndependence(c: Config, chunks: seq<ByteSeq>)
    requires !Drive(c, INIT, Join(chunks)).edge
    ensures Agrees(Drive(c, INIT, Join(chunks)), Feed(c, BEGIN, chunks))
  {
    hide Drive, Feed, Agrees, Join;
    EmptyStart(c);
    assert [] + Join(chunks) == Join(chunks);
    FeedAgrees(c, INIT, [], BEGIN, chunks);
  }

  lemma EmptyStart(c: Config)
    ensures Agrees(Drive(c, INIT, []), BEGIN)
  {
  }
}
