/** The chunked transfer coding (section 7.1 of RFC 9112): what the writer puts out, and exactly
    what the parser takes in. */
module HttpChunk {
  import opened Bytes
  import opened HttpText
  import opened HttpLine
  import opened HttpParse

  const CRLF: ByteSeq := [CR, LF]

  // ----- The coding, as a value

  /** One chunk: its size line, extensions included, and its data. */
  datatype Chunk = Chunk(sizeLine: ByteSeq, data: ByteSeq)

  /** A chunked body: its chunks, the size line of the last, and the trailer lines. */
  datatype Coded = Coded(chunks: seq<Chunk>, last: ByteSeq, trailers: seq<ByteSeq>)

  function Lines(lines: seq<ByteSeq>): ByteSeq {
    if lines == [] then [] else lines[0] + CRLF + Lines(lines[1..])
  }

  function TrailerWire(lines: seq<ByteSeq>): ByteSeq { Lines(lines) + CRLF }

  function Wire(t: Coded): ByteSeq
    decreases |t.chunks|, 0
  {
    if t.chunks == [] then t.last + CRLF + TrailerWire(t.trailers)
    else t.chunks[0].sizeLine + CRLF + DataWire(t.chunks[0].data, t.(chunks := t.chunks[1..]))
  }

  /** A chunk's data and all that follows it. */
  function DataWire(data: ByteSeq, t: Coded): ByteSeq
    decreases |t.chunks|, 1
  {
    data + CRLF + Wire(t)
  }

  function Content(t: Coded): ByteSeq
    decreases |t.chunks|
  {
    if t.chunks == [] then [] else t.chunks[0].data + Content(t.(chunks := t.chunks[1..]))
  }

  /** The size a size line announces: hexadecimal, up to any extension. */
  function SizeOf(line: ByteSeq): Option<nat> {
    var semi := FindByte(line, 0, SEMICOLON);
    ParseNumber(if semi.Some? then line[..semi.value] else line, 16)
  }

  predicate Plain(line: ByteSeq, limit: nat) {
    |line| <= limit && forall i :: 0 <= i < |line| ==> line[i] != CR && line[i] != LF
  }

  predicate ChunkOk(c: Config, k: Chunk) {
    && Plain(k.sizeLine, c.lim.maxLineLen) && SizeOf(k.sizeLine) == Some(|k.data|)
    && 0 < |k.data| <= c.lim.maxChunkSize
  }

  predicate TrailersOk(c: Config, lines: seq<ByteSeq>) {
    forall i :: 0 <= i < |lines| ==> lines[i] != [] && Plain(lines[i], c.lim.maxLineLen)
  }

  predicate CodedOk(c: Config, t: Coded) {
    && (forall i :: 0 <= i < |t.chunks| ==> ChunkOk(c, t.chunks[i]))
    && Plain(t.last, c.lim.maxLineLen) && SizeOf(t.last) == Some(0)
    && TrailersOk(c, t.trailers)
  }

  /** Every line is shorter than the longest permitted. */
  predicate Short(c: Config, t: Coded) {
    && (forall i :: 0 <= i < |t.chunks| ==> |t.chunks[i].sizeLine| < c.lim.maxLineLen)
    && |t.last| < c.lim.maxLineLen && 0 < c.lim.maxLineLen
    && (forall i :: 0 <= i < |t.trailers| ==> |t.trailers[i]| < c.lim.maxLineLen)
  }

  predicate Within(c: Config, total: nat, n: nat) {
    c.lim.maxBodyBytes == 0 || n == 0 || total + n <= c.lim.maxBodyBytes
  }

  // ----- Everything the coding permits is decoded

  /** A run that reports `body` and no head, and ends with the message complete before `rest`. */
  ghost predicate Decodes(d: Run, body: ByteSeq, rest: ByteSeq) {
    && d.stop == Complete && d.p.state == Done && d.rest == rest
    && BodyOf(d.events) == body && Heads(d.events) == []
  }

  lemma Unfold(c: Config, p: Parser, src: ByteSeq)
    ensures var a := Step(c, p, src);
            a.stop == Go ==>
              var d, e := Drive(c, p, src), Drive(c, a.p, a.rest);
              d == e.(events := a.out + e.events, edge := a.edge || e.edge)
    ensures var a := Step(c, p, src);
            a.stop != Go ==> Drive(c, p, src) == Run(a.p, a.rest, a.out, a.stop, a.edge)
  {
    hide Step;
    StepConsumes(c, p, src);
  }

  /** One line taken by a state outside the head. */
  lemma LineStep(c: Config, p: Parser, line: ByteSeq, rest: ByteSeq)
    requires (p.state.ChunkSize? || p.state.ChunkCRLF? || p.state.Trailer?) && Plain(line, c.lim.maxLineLen)
    ensures var a := Step(c, p, line + CRLF + rest);
            var u := OnLine(c, p.(headBytes := (p.headBytes + |line| + 2) % U32), line);
            && a.p == u.p && a.rest == rest && a.out == u.out && a.stop == u.stop
            && (|line| < c.lim.maxLineLen ==> !a.edge)
  {
    hide OnLine, ReadLine, AtEdge;
    var src := line + CRLF + rest;
    LineReads(line, rest, c.lim.maxLineLen, false);
    assert src == line + [CR, LF] + rest;
    assert src[|line| + 2..] == rest;
  }

  lemma Prepend(d: Run, e: Run, out: seq<Event>, edge: bool, body: ByteSeq, rest: ByteSeq)
    requires d == e.(events := out + e.events, edge := edge || e.edge)
    requires Decodes(e, body, rest) && Heads(out) == []
    ensures Decodes(d, BodyOf(out) + body, rest)
  {
    hide Heads, BodyOf;
    HeadsConcat(out, e.events);
    BodyConcat(out, e.events);
  }

  lemma {:induction false} TrailersDecode(c: Config, p: Parser, lines: seq<ByteSeq>, rest: ByteSeq)
    requires p.state.Trailer? && TrailersOk(c, lines)
    ensures var d := Drive(c, p, TrailerWire(lines) + rest);
            && Decodes(d, [], rest)
            && (0 < c.lim.maxLineLen && (forall i :: 0 <= i < |lines| ==> |lines[i]| < c.lim.maxLineLen) ==> !d.edge)
    decreases |lines|
  {
    hide Step, Drive;
    var src := TrailerWire(lines) + rest;
    Unfold(c, p, src);
    NothingReported();
    if lines == [] {
      assert src == [] + CRLF + rest;
      LineStep(c, p, [], rest);
    } else {
      var more := TrailerWire(lines[1..]) + rest;
      assert src == lines[0] + CRLF + more;
      LineStep(c, p, lines[0], more);
      var a := Step(c, p, src);
      TrailersDecode(c, a.p, lines[1..], rest);
      assert [] + Drive(c, a.p, more).events == Drive(c, a.p, more).events;
    }
  }

  /** A whole run of data takes one step. */
  lemma DataStep(c: Config, p: Parser, data: ByteSeq, more: ByteSeq)
    requires p.state.ChunkData? && |data| == p.length > 0 && Within(c, p.bodyTotal, |data|)
    ensures var a := Step(c, p, data + more);
            && a.stop == Go && a.out == [Body(data)] && a.rest == more && !a.edge
            && a.p == p.(state := ChunkCRLF, length := 0, bodyTotal := p.bodyTotal + |data|)
  {
    assert (data + more)[..|data|] == data && (data + more)[|data|..] == more;
  }

  /** Data and all that follows it, decoded once what follows is. */
  lemma DataDecodes(c: Config, p: Parser, data: ByteSeq, t: Coded, rest: ByteSeq)
    requires p.state.ChunkData? && |data| == p.length > 0 && Within(c, p.bodyTotal, |data|)
    requires var d := Drive(c, NextSize(p, |data|), Wire(t) + rest);
             Decodes(d, Content(t), rest) && (Short(c, t) ==> !d.edge)
    ensures var d := Drive(c, p, DataWire(data, t) + rest);
            Decodes(d, data + Content(t), rest) && (Short(c, t) ==> !d.edge)
  {
    hide Step, Drive, Wire, Content, Heads, BodyOf;
    var src, after, next := DataWire(data, t) + rest, CRLF + Wire(t) + rest, Wire(t) + rest;
    assert src == data + after;
    Unfold(c, p, src);
    DataStep(c, p, data, after);
    var q := Step(c, p, src).p;
    Unfold(c, q, after);
    assert after == [] + CRLF + next;
    LineStep(c, q, [], next);
    assert Step(c, q, after).p == NextSize(p, |data|);
    OneRun(data);
    NothingReported();
    var e := Drive(c, NextSize(p, |data|), next);
    Prepend(Drive(c, q, after), e, [], Step(c, q, after).edge, Content(t), rest);
    Prepend(Drive(c, p, src), Drive(c, q, after), [Body(data)], false, Content(t), rest);
    assert [] + Content(t) == Content(t);
  }

  /** The parser past a chunk of `n` bytes, before the next size line. */
  function NextSize(p: Parser, n: nat): Parser {
    p.(state := ChunkSize, length := 0, bodyTotal := p.bodyTotal + n,
       headBytes := (p.headBytes + 2) % U32)
  }

  lemma {:induction false} CodedDecodes(c: Config, p: Parser, t: Coded, rest: ByteSeq)
    requires p.state.ChunkSize? && CodedOk(c, t) && Within(c, p.bodyTotal, |Content(t)|)
    ensures var d := Drive(c, p, Wire(t) + rest);
            Decodes(d, Content(t), rest) && (Short(c, t) ==> !d.edge)
    decreases |t.chunks|
  {
    hide Step, Drive, ParseNumber, TrailerWire, Heads, BodyOf;
    var src := Wire(t) + rest;
    Unfold(c, p, src);
    NothingReported();
    if t.chunks == [] {
      var more := TrailerWire(t.trailers) + rest;
      assert src == t.last + CRLF + more;
      LineStep(c, p, t.last, more);
      var a := Step(c, p, src);
      TrailersDecode(c, a.p, t.trailers, rest);
      Prepend(Drive(c, p, src), Drive(c, a.p, more), [], a.edge, [], rest);
      assert Content(t) == [] + [];
    } else {
      var k, u := t.chunks[0], t.(chunks := t.chunks[1..]);
      var more := DataWire(k.data, u) + rest;
      assert src == k.sizeLine + CRLF + more;
      assert ChunkOk(c, k);
      LineStep(c, p, k.sizeLine, more);
      var a := Step(c, p, src);
      assert |Content(t)| == |k.data| + |Content(u)|;
      CodedDecodes(c, NextSize(a.p, |k.data|), u, rest);
      DataDecodes(c, a.p, k.data, u, rest);
      Prepend(Drive(c, p, src), Drive(c, a.p, more), [], a.edge, Content(t), rest);
      assert [] + Content(t) == Content(t);
    }
  }

  // ----- Nothing else is decoded

  lemma {:induction false} ScanStrict(w: ByteSeq, i: nat)
    requires forall k :: 0 <= k < i && k < |w| ==> w[k] != LF
    requires forall k :: 0 <= k < i - 1 && k < |w| ==> w[k] != CR
    requires 0 < i < |w| && w[i - 1] == CR ==> w[i] == LF
    ensures var v := Scan(w, false, i);
            v.Ends? ==> v.skip == v.eol + 2 && w[v.eol] == CR && w[v.eol + 1] == LF
                        && forall k :: 0 <= k < v.eol ==> w[k] != CR && w[k] != LF
    decreases |w| - i
  {
    if i < |w| && w[i] != LF && !(w[i] == CR && i + 1 < |w| && w[i + 1] != LF) {
      ScanStrict(w, i + 1);
    }
  }

  /** A line read outside the head is a plain line with CR LF after it. */
  lemma LineFound(src: ByteSeq, limit: nat)
    ensures var r := ReadLine(src, limit, false);
            r.Got? ==> Plain(r.line, limit) && r.skip == |r.line| + 2 && src == r.line + CRLF + src[r.skip..]
  {
    var w := Window(src, limit);
    ScanStrict(w, 0);
    var v := Scan(w, false, 0);
    if v.Ends? {
      assert src == w[..v.eol] + CRLF + src[v.skip..];
    }
  }

  /** What a run that completes from one of the chunk states has read: the rest of the chunk under
      way, if any, and a coded tail. */
  function Expected(p: Parser, pre: ByteSeq, t: Coded): ByteSeq {
    match p.state
    case ChunkData => DataWire(pre, t)
    case ChunkCRLF => CRLF + Wire(t)
    case Trailer => TrailerWire(t.trailers)
    case _ => Wire(t)
  }

  /** The body such a run reports. */
  function Reported(p: Parser, pre: ByteSeq, t: Coded): ByteSeq {
    match p.state
    case ChunkData => pre + Content(t)
    case Trailer => []
    case _ => Content(t)
  }

  predicate InChunks(p: Parser) {
    p.state.ChunkSize? || (p.state.ChunkData? && p.length > 0) || p.state.ChunkCRLF? || p.state.Trailer?
  }

  /** The run over `src` is accounted for by `pre` and `t`. */
  ghost predicate Accounts(c: Config, p: Parser, src: ByteSeq, d: Run, pre: ByteSeq, t: Coded) {
    && (if p.state.Trailer? then TrailersOk(c, t.trailers) else CodedOk(c, t))
    && (p.state.ChunkData? ==> |pre| == p.length)
    && src == Expected(p, pre, t) + d.rest
    && Decodes(d, Reported(p, pre, t), d.rest)
    && Within(c, p.bodyTotal, |Reported(p, pre, t)|)
  }

  lemma Absorb(d: Run, e: Run, out: seq<Event>, edge: bool)
    requires d == e.(events := out + e.events, edge := edge || e.edge) && e.stop == Complete
    requires e.p.state == Done && Heads(e.events) == [] && Heads(out) == []
    ensures Decodes(d, BodyOf(out) + BodyOf(e.events), e.rest)
  {
    hide Heads, BodyOf;
    Prepend(d, e, out, edge, BodyOf(e.events), e.rest);
  }

  /** The line behind a step of a state that reads them. */
  lemma LineBehind(c: Config, p: Parser, src: ByteSeq) returns (line: ByteSeq)
    requires p.state.ChunkSize? || p.state.ChunkCRLF? || p.state.Trailer?
    requires var a := Step(c, p, src); a.stop == Go || a.stop == Complete
    ensures var a := Step(c, p, src);
            && src == line + CRLF + a.rest && Plain(line, c.lim.maxLineLen)
            && var u := OnLine(c, p.(headBytes := (p.headBytes + |line| + 2) % U32), line);
               a.p == u.p && a.out == u.out && a.stop == u.stop
  {
    hide OnLine, ReadLine, AtEdge;
    LineFound(src, c.lim.maxLineLen);
    var r := ReadLine(src, c.lim.maxLineLen, false);
    line := r.line;
  }

  lemma NoRunYet(d: Run, e: Run, edge: bool)
    requires d == e.(events := [] + e.events, edge := edge || e.edge)
    ensures d.events == e.events && d.rest == e.rest && d.stop == e.stop && d.p == e.p
  {
  }

  lemma TrailerBehind(c: Config, p: Parser, src: ByteSeq, pre: ByteSeq, u: Coded) returns (t: Coded)
    requires p.state.Trailer? && Step(c, p, src).stop == Go
    requires var a := Step(c, p, src); Accounts(c, a.p, a.rest, Drive(c, a.p, a.rest), pre, u)
    ensures Accounts(c, p, src, Drive(c, p, src), pre, t)
  {
    hide Step, Drive, ParseNumber, Heads, BodyOf, Wire, Content;
    Unfold(c, p, src);
    var line := LineBehind(c, p, src);
    var a := Step(c, p, src);
    NoRunYet(Drive(c, p, src), Drive(c, a.p, a.rest), a.edge);
    t := u.(trailers := [line] + u.trailers);
    OneTrailerMore(line, u.trailers);
  }

  lemma OneTrailerMore(line: ByteSeq, lines: seq<ByteSeq>)
    ensures TrailerWire([line] + lines) == line + CRLF + TrailerWire(lines)
  {
    assert ([line] + lines)[1..] == lines;
    var a, b := line + CRLF, Lines(lines);
    assert a + b + CRLF == a + (b + CRLF);
  }

  lemma SizeLineBehind(c: Config, p: Parser, src: ByteSeq) returns (line: ByteSeq)
    requires p.state.ChunkSize? && Step(c, p, src).stop == Go
    ensures var a := Step(c, p, src);
            && src == line + CRLF + a.rest && Plain(line, c.lim.maxLineLen) && a.out == []
            && a.p.bodyTotal == p.bodyTotal && SizeOf(line).Some?
            && (if SizeOf(line).value == 0 then a.p.state.Trailer?
                else a.p.state.ChunkData? && a.p.length == SizeOf(line).value <= c.lim.maxChunkSize)
  {
    hide Step, ParseNumber, FindByte;
    line := LineBehind(c, p, src);
  }

  lemma SizeBehind(c: Config, p: Parser, src: ByteSeq, pre: ByteSeq, u: Coded) returns (t: Coded)
    requires p.state.ChunkSize? && Step(c, p, src).stop == Go
    requires var a := Step(c, p, src); Accounts(c, a.p, a.rest, Drive(c, a.p, a.rest), pre, u)
    ensures Accounts(c, p, src, Drive(c, p, src), pre, t)
  {
    hide Step, Drive, SizeOf, Heads, BodyOf, TrailerWire, Wire, DataWire, Content;
    Unfold(c, p, src);
    var line := SizeLineBehind(c, p, src);
    var a := Step(c, p, src);
    NoRunYet(Drive(c, p, src), Drive(c, a.p, a.rest), a.edge);
    if a.p.state.Trailer? {
      t := LastChunk(line, u);
    } else {
      t := OneMore(line, pre, u);
    }
    assert src == Wire(t) + Drive(c, p, src).rest;
  }

  lemma LastChunk(line: ByteSeq, u: Coded) returns (t: Coded)
    ensures t == u.(chunks := [], last := line)
    ensures Wire(t) == line + CRLF + TrailerWire(u.trailers) && Content(t) == []
  {
    hide TrailerWire;
    t := u.(chunks := [], last := line);
  }

  lemma OneMore(line: ByteSeq, data: ByteSeq, u: Coded) returns (t: Coded)
    ensures t == u.(chunks := [Chunk(line, data)] + u.chunks)
    ensures Wire(t) == line + CRLF + DataWire(data, u) && Content(t) == data + Content(u)
  {
    hide DataWire;
    t := u.(chunks := [Chunk(line, data)] + u.chunks);
    assert t.(chunks := t.chunks[1..]) == u;
  }

  lemma GapBehind(c: Config, p: Parser, src: ByteSeq, pre: ByteSeq, t: Coded)
    requires p.state.ChunkCRLF? && Step(c, p, src).stop == Go
    requires var a := Step(c, p, src); Accounts(c, a.p, a.rest, Drive(c, a.p, a.rest), pre, t)
    ensures Accounts(c, p, src, Drive(c, p, src), pre, t)
  {
    hide Step, Drive, ParseNumber, Heads, BodyOf, Wire, Content;
    Unfold(c, p, src);
    var line := LineBehind(c, p, src);
    var a := Step(c, p, src);
    NoRunYet(Drive(c, p, src), Drive(c, a.p, a.rest), a.edge);
    assert src == CRLF + Wire(t) + Drive(c, p, src).rest;
  }

  lemma RunBehind(c: Config, p: Parser, src: ByteSeq) returns (run: ByteSeq)
    requires p.state.ChunkData? && p.length > 0 && Step(c, p, src).stop == Go
    ensures var a := Step(c, p, src);
            && src == run + a.rest && 0 < |run| <= p.length && a.out == [Body(run)]
            && (c.lim.maxBodyBytes == 0 || p.bodyTotal + |run| <= c.lim.maxBodyBytes)
            && a.p == p.(bodyTotal := p.bodyTotal + |run|, length := p.length - |run|,
                         state := if |run| == p.length then ChunkCRLF else ChunkData)
  {
    run := src[..BodyRun(p, |src|)];
  }

  lemma DataBehind(c: Config, p: Parser, src: ByteSeq, pre: ByteSeq, t: Coded) returns (data: ByteSeq)
    requires p.state.ChunkData? && p.length > 0 && Step(c, p, src).stop == Go
    requires var a := Step(c, p, src); Accounts(c, a.p, a.rest, Drive(c, a.p, a.rest), pre, t)
    ensures Accounts(c, p, src, Drive(c, p, src), data, t)
  {
    hide Step, Drive, ParseNumber, Heads, BodyOf, Wire, Content;
    Unfold(c, p, src);
    var run := RunBehind(c, p, src);
    var a := Step(c, p, src);
    var d, e := Drive(c, p, src), Drive(c, a.p, a.rest);
    OneRun(run);
    Absorb(d, e, a.out, a.edge);
    data := if |run| == p.length then run else run + pre;
    assert DataWire(data, t) == run + Expected(a.p, pre, t);
    assert Reported(p, data, t) == run + Reported(a.p, pre, t);
  }

  lemma TrailerEnds(c: Config, p: Parser, src: ByteSeq) returns (t: Coded)
    requires InChunks(p) && Step(c, p, src).stop == Complete
    ensures Accounts(c, p, src, Drive(c, p, src), [], t)
  {
    hide Step, Drive, ParseNumber, Heads, BodyOf, Wire, Content;
    CompletesInTrailer(c, p, src);
    Unfold(c, p, src);
    var line := LineBehind(c, p, src);
    NothingReported();
    t := Coded([], [], []);
    assert src == TrailerWire([]) + Drive(c, p, src).rest;
  }

  lemma CompletesInTrailer(c: Config, p: Parser, src: ByteSeq)
    requires InChunks(p) && Step(c, p, src).stop == Complete
    ensures p.state.Trailer?
  {
    hide ReadLine, AtEdge, ParseNumber;
  }

  /** A state outside the head stays outside it. */
  lemma StaysInChunks(c: Config, p: Parser, src: ByteSeq)
    requires InChunks(p) && Step(c, p, src).stop == Go
    ensures InChunks(Step(c, p, src).p)
  {
    hide ReadLine, AtEdge, ParseNumber;
  }

  /** Whatever completes was coded: the bytes read are a coding of exactly the body reported. */
  lemma {:induction false} CompletedWasCoded(c: Config, p: Parser, src: ByteSeq)
    returns (pre: ByteSeq, t: Coded)
    requires InChunks(p) && Drive(c, p, src).stop == Complete
    ensures Accounts(c, p, src, Drive(c, p, src), pre, t)
    decreases |src|
  {
    hide Step, Drive, Accounts, ParseNumber;
    StepConsumes(c, p, src);
    Unfold(c, p, src);
    var a := Step(c, p, src);
    pre := [];
    if a.stop == Complete {
      t := TrailerEnds(c, p, src);
    } else {
      StaysInChunks(c, p, src);
      pre, t := CompletedWasCoded(c, a.p, a.rest);
      if p.state.Trailer? {
        t := TrailerBehind(c, p, src, pre, t);
      } else if p.state.ChunkSize? {
        t := SizeBehind(c, p, src, pre, t);
      } else if p.state.ChunkCRLF? {
        GapBehind(c, p, src, pre, t);
      } else {
        pre := DataBehind(c, p, src, pre, t);
      }
    }
  }

  /** And this is how the rest is refused: a line that is no size, or a chunk that does not end where it
      should, as malformed; a chunk over the limit as too large. */
  lemma ChunkRefused(c: Config, p: Parser, line: ByteSeq, rest: ByteSeq)
    requires (p.state.ChunkSize? || p.state.ChunkCRLF?) && Plain(line, c.lim.maxLineLen)
    ensures var d := Drive(c, p, line + CRLF + rest);
            var why := if p.state.ChunkCRLF? then (if line == [] then NoError else BadMessage)
                       else if SizeOf(line).None? then BadMessage
                       else if SizeOf(line).value > c.lim.maxChunkSize then TooLarge
                       else NoError;
            why != NoError ==> d.stop == Refused(false) && d.events == [] && d.p.state == Failed && d.p.err == why
  {
    hide Step, Drive, ParseNumber;
    LineStep(c, p, line, rest);
    Unfold(c, p, line + CRLF + rest);
  }

  /** `src` begins with a permitted coding, and `rest` is what comes after it. */
  predicate Coding(c: Config, p: Parser, t: Coded, src: ByteSeq, rest: ByteSeq) {
    CodedOk(c, t) && Within(c, p.bodyTotal, |Content(t)|) && src == Wire(t) + rest
  }

  /** The chunked decoder accepts exactly the chunked coding: a run over `src` completes if and
      only if `src` begins with a coding within the limits, and then the body is what was coded and
      whatever follows is left alone. */
  lemma ChunkedExact(c: Config, p: Parser, src: ByteSeq)
    requires p.state.ChunkSize?
    ensures Drive(c, p, src).stop == Complete <==> exists t, rest :: Coding(c, p, t, src, rest)
    ensures forall t, rest :: Coding(c, p, t, src, rest) ==> Decodes(Drive(c, p, src), Content(t), rest)
  {
    hide Drive, ParseNumber, CodedOk, Wire, Content, Heads, BodyOf;
    forall t, rest | Coding(c, p, t, src, rest)
      ensures Decodes(Drive(c, p, src), Content(t), rest)
    {
      CodedDecodes(c, p, t, rest);
    }
    if Drive(c, p, src).stop == Complete {
      var _, t := CompletedWasCoded(c, p, src);
      assert Coding(c, p, t, src, Drive(c, p, src).rest);
    }
  }

  // ----- The writer

  function OneChunk(data: ByteSeq): ByteSeq { FormatHex(|data|) + CRLF + data + CRLF }

  /** Adds a piece of body; an empty piece is refused, since it would end the body. */
  function ChunkAppend(out: ByteSeq, data: ByteSeq): Option<ByteSeq> {
    if data == [] then None else Some(out + OneChunk(data))
  }

  function ChunkFinish(out: ByteSeq): ByteSeq { out + ['0' as int] + CRLF + CRLF }

  /** The pieces of a body, joined and as they go out: each a chunk of its own. */
  function Concat(pieces: seq<ByteSeq>): ByteSeq {
    if pieces == [] then [] else pieces[0] + Concat(pieces[1..])
  }

  function Chunks(pieces: seq<ByteSeq>): ByteSeq {
    if pieces == [] then []
    else OneChunk(pieces[0]) + Chunks(pieces[1..])
  }

  lemma {:induction false} ConcatAppend(pieces: seq<ByteSeq>, x: ByteSeq)
    ensures Concat(pieces + [x]) == Concat(pieces) + x
  {
    if pieces == [] {
      assert pieces + [x] == [x] && [x][1..] == [];
    } else {
      ConcatAppend(pieces[1..], x);
      assert (pieces + [x])[1..] == pieces[1..] + [x];
    }
  }

  lemma {:induction false} ChunksAppend(pieces: seq<ByteSeq>, x: ByteSeq)
    ensures Chunks(pieces + [x]) == Chunks(pieces) + OneChunk(x)
  {
    hide OneChunk;
    if pieces == [] {
      assert pieces + [x] == [x] && [x][1..] == [];
    } else {
      ChunksAppend(pieces[1..], x);
      assert (pieces + [x])[1..] == pieces[1..] + [x];
    }
  }

  /** A written body as a value of the coding. */
  function Written(pieces: seq<ByteSeq>): Coded {
    Coded(seq(|pieces|, i requires 0 <= i < |pieces| => Chunk(FormatHex(|pieces[i]|), pieces[i])),
          ['0' as int], [])
  }

  lemma {:induction false} WrittenWire(pieces: seq<ByteSeq>)
    ensures Wire(Written(pieces)) == ChunkFinish(Chunks(pieces))
    ensures Content(Written(pieces)) == Concat(pieces)
  {
    hide FormatHex;
    var t := Written(pieces);
    if pieces != [] {
      WrittenWire(pieces[1..]);
      assert t.(chunks := t.chunks[1..]) == Written(pieces[1..]);
    }
  }

  /** The pieces a writer may put out for a reader with these limits. */
  predicate Sendable(c: Config, pieces: seq<ByteSeq>) {
    forall i :: 0 <= i < |pieces| ==> 0 < |pieces[i]| <= c.lim.maxChunkSize && |pieces[i]| < U64
  }

  lemma SizeLineOk(n: nat, limit: nat)
    requires n < U64 && 16 < limit
    ensures Plain(FormatHex(n), limit) && |FormatHex(n)| < limit && SizeOf(FormatHex(n)) == Some(n)
  {
    hide FormatHex, NumberValue;
    ParseFormatHex(n);
    FormatHexDigits(n);
    NoSemicolon(FormatHex(n), 0);
  }

  lemma {:induction false} NoSemicolon(s: ByteSeq, i: nat)
    requires i <= |s| && forall k :: 0 <= k < |s| ==> IsDigit(s[k], 16)
    ensures FindByte(s, i, SEMICOLON) == None
    decreases |s| - i
  {
    if i < |s| {
      NoSemicolon(s, i + 1);
    }
  }

  lemma WrittenOk(c: Config, pieces: seq<ByteSeq>)
    requires Sendable(c, pieces) && 16 < c.lim.maxLineLen
    ensures CodedOk(c, Written(pieces)) && Short(c, Written(pieces))
  {
    hide FormatHex, SizeOf;
    var t := Written(pieces);
    forall i | 0 <= i < |t.chunks|
      ensures ChunkOk(c, t.chunks[i]) && |t.chunks[i].sizeLine| < c.lim.maxLineLen
    {
      SizeLineOk(|pieces[i]|, c.lim.maxLineLen);
    }
    assert FormatHex(0) == ['0' as int] by {
      ZeroSize();
    }
    SizeLineOk(0, c.lim.maxLineLen);
  }

  lemma ZeroSize()
    ensures FormatHex(0) == ['0' as int]
  {
  }

  /** A body written in any pieces and delivered in any others arrives whole, is complete exactly
      at its terminator, and leaves what follows unread. */
  lemma WrittenBodyArrives(c: Config, p: Parser, pieces: seq<ByteSeq>, rest: ByteSeq, cuts: seq<ByteSeq>)
    requires p.state.ChunkSize? && Sendable(c, pieces) && 16 < c.lim.maxLineLen
    requires Within(c, p.bodyTotal, |Concat(pieces)|)
    requires Join(cuts) == ChunkFinish(Chunks(pieces)) + rest
    ensures Decodes(Feed(c, Run(p, [], [], Starved, false), cuts), Concat(pieces), rest)
  {
    hide Drive, Feed, Wire, Content, CodedOk, Short, Heads, BodyOf, ParseNumber;
    WrittenOk(c, pieces);
    WrittenWire(pieces);
    CodedDecodes(c, p, Written(pieces), rest);
    var f := Run(p, [], [], Starved, false);
    assert Drive(c, p, []) == f by {
      NothingYet(c, p);
    }
    assert [] + Join(cuts) == Join(cuts);
    FeedAgrees(c, p, [], f, cuts);
  }

  lemma NothingYet(c: Config, p: Parser)
    requires p.state.ChunkSize?
    ensures Drive(c, p, []) == Run(p, [], [], Starved, false)
  {
  }

  /** Every byte of a coding is needed: with any of them still to come the decoder waits, having
      neither completed nor failed. */
  lemma NotBeforeTheEnd(c: Config, p: Parser, t: Coded, k: nat)
    requires p.state.ChunkSize? && CodedOk(c, t) && Short(c, t) && Within(c, p.bodyTotal, |Content(t)|)
    requires k < |Wire(t)|
    ensures Drive(c, p, Wire(t)[..k]).stop == Starved
  {
    hide Drive, Wire, Content, CodedOk, Short, Heads, BodyOf, ParseNumber;
    var a, b := Wire(t)[..k], Wire(t)[k..];
    assert a + b == Wire(t) == Wire(t) + [];
    CodedDecodes(c, p, t, []);
    DriveSplits(c, p, a, b);
    DriveStops(c, p, a);
    var d := Drive(c, p, a);
    if d.stop != Starved {
      EndedStays(c, d.p, d.rest + b);
    }
  }
}
