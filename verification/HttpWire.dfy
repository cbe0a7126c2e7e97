/** Requests and responses as they are written, and as the parser at the other end reads them. */
module HttpWire {
  import opened Bytes
  import opened HttpText
  import opened HttpLine
  import opened HttpParse
  import opened HttpChunk
  import opened HttpClean
  import HttpPump
  import HttpCut

  // ----- Decimal numbers

  function FormatDec(v: nat): (r: ByteSeq)
    ensures r != []
  {
    if v < 10 then ['0' as int + v] else FormatDec(v / 10) + ['0' as int + v % 10]
  }

  lemma {:induction false} FormatDecDigits(v: nat)
    ensures var s := FormatDec(v);
            && (forall i :: 0 <= i < |s| ==> '0' as int <= s[i] <= '9' as int && IsDigit(s[i], 10))
            && NumberValue(s, 10) == v
  {
    var s := FormatDec(v);
    if v >= 10 {
      FormatDecDigits(v / 10);
      assert s[..|s| - 1] == FormatDec(v / 10);
    } else {
      assert s[..0] == [];
    }
  }

  // ----- The head

  datatype Request = Request(methodName: ByteSeq, target: ByteSeq, host: ByteSeq, headers: seq<Header>)

  /** How the body is framed: there is none, its length is known, or it is not. */
  datatype BodyKind = NoBody | Counted(n: nat) | Unknown

  const HOST := Ascii("Host")
  const CONTENT_LENGTH := Ascii("Content-Length")
  const TRANSFER_ENCODING := Ascii("Transfer-Encoding")
  const CHUNKED := Ascii("chunked")

  function FramingField(k: BodyKind): seq<Header> {
    match k
    case NoBody => []
    case Counted(n) => [Header(CONTENT_LENGTH, FormatDec(n))]
    case Unknown => [Header(TRANSFER_ENCODING, CHUNKED)]
  }

  /** Every field that goes out. */
  function Fields(r: Request, k: BodyKind): seq<Header> { OwnFields(r) + FramingField(k) }

  function RequestLine(r: Request): ByteSeq {
    r.methodName + [SP] + (r.target + [SP] + Ascii("HTTP/1.1"))
  }

  function FieldLine(h: Header): ByteSeq { h.name + ([COLON, SP] + h.value) }

  function FieldLines(hs: seq<Header>): ByteSeq {
    if hs == [] then [] else FieldLine(hs[0]) + CRLF + FieldLines(hs[1..])
  }

  function BuildHead(r: Request, k: BodyKind): ByteSeq {
    RequestLine(r) + CRLF + (FieldLines(Fields(r, k)) + CRLF)
  }

  // ----- What can be written so that it reads back

  /** The fields before the framing: a Host if the request names none, and its own as they are. */
  function OwnFields(r: Request): seq<Header> {
    (if Has(r.headers, HOST) then [] else [Header(HOST, r.host)]) + r.headers
  }

  predicate RequestOk(r: Request) { LineOk(r.methodName, r.target) && AllOk(OwnFields(r)) }

  /** The request's own fields do not speak against the framing its body is sent with. */
  predicate Agreeing(r: Request, k: BodyKind) {
    match k
    case NoBody => !Has(r.headers, TRANSFER_ENCODING) && AllRead(ValuesOf(r.headers, CONTENT_LENGTH), 0)
    case Counted(n) => !Has(r.headers, TRANSFER_ENCODING) && AllRead(ValuesOf(r.headers, CONTENT_LENGTH), n)
    case Unknown => !Has(r.headers, CONTENT_LENGTH)
  }

  predicate AllRead(values: seq<ByteSeq>, n: nat) {
    forall i :: 0 <= i < |values| ==> ParseNumber(values[i], 10) == Some(n)
  }

  /** The reader's limits admit it, with every line shorter than the longest permitted. */
  predicate Admits(c: Config, r: Request, k: BodyKind) {
    && |RequestLine(r)| < c.lim.maxLineLen
    && (forall i :: 0 <= i < |Fields(r, k)| ==> |FieldLine(Fields(r, k)[i])| < c.lim.maxLineLen)
    && 0 < c.lim.maxLineLen && |Fields(r, k)| <= c.lim.maxHeaderCount
    && |BuildHead(r, k)| <= c.lim.maxHeadBytes < U32
  }

  lemma NotInTokens(c: Byte)
    requires c == SP || c == CR || c == LF || c == COLON || c == '\t' as int
    ensures !IsTokenChar(c)
  {
    var s := "!#$%&'*+-.^_`|~";
    assert forall i :: 0 <= i < |s| ==> s[i] != ' ' && s[i] != ':' && s[i] as int > 32 && (s[i] as int) < 256;
  }

  lemma TokenIsPlain(s: ByteSeq)
    requires IsToken(s)
    ensures PlainText(s) && SP !in s && COLON !in s && s != [] && !IsOWS(s[0])
  {
    hide IsTokenChar;
    NotInTokens(SP);
    NotInTokens(CR);
    NotInTokens(LF);
    NotInTokens(COLON);
    NotInTokens('\t' as int);
  }

  // ----- Reading it

  lemma FindsAt(s: ByteSeq, from: nat, n: nat, c: Byte)
    requires from <= n < |s| && s[n] == c && c !in s[from..n]
    ensures FindByte(s, from, c) == Some(n)
  {
    assert forall i :: from <= i < n ==> s[i] == s[from..n][i - from];
    var r := FindByte(s, from, c);
    assert r.Some?;
  }

  lemma RequestLineReads(p: Parser, r: Request)
    requires RequestOk(r) && p.state.Start?
    ensures OnRequestLine(p, RequestLine(r))
            == Turn(p.(head := p.head.(methodName := r.methodName, target := r.target, version := Http11),
                       state := Headers), [], Go)
    ensures PlainText(RequestLine(r)) && RequestLine(r) != []
  {
    hide IsToken, FindByte;
    var line, m, t := RequestLine(r), |r.methodName|, |r.target|;
    TokenIsPlain(r.methodName);
    assert line[..m] == r.methodName && line[0..m] == r.methodName;
    FindsAt(line, 0, m, SP);
    assert line[m + 1..m + 1 + t] == r.target;
    FindsAt(line, m + 1, m + 1 + t, SP);
    assert line[m + t + 2..] == Ascii("HTTP/1.1");
    VersionIsPlain();
  }

  lemma VersionIsPlain()
    ensures PlainText(Ascii("HTTP/1.1"))
  {
  }

  lemma TrimSpaced(v: ByteSeq)
    requires Trim(v) == v
    ensures Trim([SP] + v) == v
  {
    assert ([SP] + v)[1..] == v;
  }

  lemma FieldLineReads(c: Config, p: Parser, h: Header)
    requires FieldOk(h) && p.head.headerCount < c.lim.maxHeaderCount
    ensures OnHeaderLine(c, p, FieldLine(h))
            == Turn(p.(head := p.head.(headerCount := p.head.headerCount + 1,
                                       headers := p.head.headers + [h])), [], Go)
    ensures PlainText(FieldLine(h)) && FieldLine(h) != []
  {
    hide IsToken, Trim, FinishHead;
    var line, n := FieldLine(h), |h.name|;
    TokenIsPlain(h.name);
    assert line[..n] == h.name && line[0..n] == h.name && line[0] == h.name[0];
    FindsAt(line, 0, n, COLON);
    assert line[n + 1..] == [SP] + h.value;
    TrimSpaced(h.value);
  }

  lemma HeadLineStep(c: Config, p: Parser, line: ByteSeq, rest: ByteSeq)
    requires InHead(p.state) && PlainText(line) && |line| < c.lim.maxLineLen
    requires p.headBytes <= c.lim.maxHeadBytes && p.headBytes + |line| + 2 < U32
    ensures var u := OnLine(c, p.(headBytes := p.headBytes + |line| + 2), line);
            Step(c, p, line + CRLF + rest) == Advance(u.p, rest, u.out, u.stop, false)
  {
    hide OnLine, ReadLine, AtEdge;
    var src := line + CRLF + rest;
    LineReads(line, rest, c.lim.maxLineLen, true);
    assert src == line + [CR, LF] + rest;
    assert src[|line| + 2..] == rest;
  }

  function WithFields(p: Parser, hs: seq<Header>): Parser {
    p.(head := p.head.(headers := p.head.headers + hs, headerCount := p.head.headerCount + |hs|),
       headBytes := p.headBytes + |FieldLines(hs)|)
  }

  lemma SameRun(d: Run, e: Run)
    requires d == e.(events := [] + e.events, edge := false || e.edge)
    ensures d == e
  {
  }

  lemma {:induction false} FieldsRead(c: Config, p: Parser, hs: seq<Header>, rest: ByteSeq)
    requires p.state.Headers? && p.head.headerCount + |hs| <= c.lim.maxHeaderCount
    requires p.headBytes + |FieldLines(hs)| <= c.lim.maxHeadBytes && c.lim.maxHeadBytes < U32
    requires forall i :: 0 <= i < |hs| ==> FieldOk(hs[i]) && |FieldLine(hs[i])| < c.lim.maxLineLen
    ensures Drive(c, p, FieldLines(hs) + rest) == Drive(c, WithFields(p, hs), rest)
    decreases |hs|
  {
    hide Step, Drive, OnHeaderLine, FieldOk, FieldLine;
    if hs == [] {
      assert FieldLines(hs) + rest == rest;
      assert p.head.headers + hs == p.head.headers;
    } else {
      var src := FieldLines(hs) + rest;
      var more := FieldLines(hs[1..]) + rest;
      var line := FieldLine(hs[0]);
      assert src == line + CRLF + more;
      var q := p.(headBytes := p.headBytes + |line| + 2);
      FieldLineReads(c, q, hs[0]);
      HeadLineStep(c, p, line, more);
      Unfold(c, p, src);
      var a := Step(c, p, src);
      SameRun(Drive(c, p, src), Drive(c, a.p, more));
      FieldsRead(c, a.p, hs[1..], rest);
      assert p.head.headers + [hs[0]] + hs[1..] == p.head.headers + hs;
    }
  }

  // ----- The framing it leads to

  function StateFor(k: BodyKind): State {
    match k
    case NoBody => Done
    case Counted(n) => if n > 0 then BodyLength else Done
    case Unknown => ChunkSize
  }

  function FramingFor(k: BodyKind): Framing {
    Framing(k.NoBody?, k.Unknown?, k.Counted?, false)
  }

  function TotalFor(k: BodyKind): Option<nat> {
    match k case NoBody => Some(0) case Counted(n) => Some(n) case Unknown => None
  }

  /** The parser once the head is in. */
  function Framed(p: Parser, k: BodyKind): Parser {
    p.(headDone := true, framing := FramingFor(k), state := StateFor(k),
       length := if k.Counted? then k.n else p.length)
  }

  lemma NamesDiffer()
    ensures !Eqi(HOST, CONTENT_LENGTH) && !Eqi(HOST, TRANSFER_ENCODING)
    ensures !Eqi(CONTENT_LENGTH, TRANSFER_ENCODING) && !Eqi(TRANSFER_ENCODING, CONTENT_LENGTH)
    ensures Eqi(CONTENT_LENGTH, CONTENT_LENGTH) && Eqi(TRANSFER_ENCODING, TRANSFER_ENCODING)
  {
    assert |LowerBytes(HOST)| == 4 && |LowerBytes(CONTENT_LENGTH)| == 14 && |LowerBytes(TRANSFER_ENCODING)| == 17;
  }

  lemma {:induction false} ValuesSplit(a: seq<Header>, b: seq<Header>, name: ByteSeq)
    ensures ValuesOf(a + b, name) == ValuesOf(a, name) + ValuesOf(b, name)
  {
    hide ValueIn;
    if a == [] {
      assert a + b == b;
    } else {
      ValuesSplit(a[1..], b, name);
      assert (a + b)[1..] == a[1..] + b;
    }
  }

  lemma {:induction false} NoValues(hs: seq<Header>, name: ByteSeq)
    requires forall i :: 0 <= i < |hs| ==> !Eqi(hs[i].name, name)
    ensures ValuesOf(hs, name) == [] && !Has(hs, name)
  {
    hide Eqi;
    if hs != [] {
      NoValues(hs[1..], name);
    }
  }

  lemma OneValue(h: Header, name: ByteSeq)
    requires Eqi(h.name, name)
    ensures ValuesOf([h], name) == [h.value]
  {
    hide Eqi;
    assert [h][1..] == [];
  }

  lemma HasLast(a: seq<Header>, b: seq<Header>, name: ByteSeq)
    ensures Has(a + b, name) <==> Has(a, name) || Has(b, name)
  {
    hide Eqi;
    if Has(a, name) {
      var i :| 0 <= i < |a| && Eqi(a[i].name, name);
      assert (a + b)[i] == a[i];
    }
    if Has(b, name) {
      var i :| 0 <= i < |b| && Eqi(b[i].name, name);
      assert (a + b)[|a| + i] == b[i];
    }
  }

  lemma FramingHas(k: BodyKind)
    ensures Has(FramingField(k), CONTENT_LENGTH) <==> k.Counted?
    ensures Has(FramingField(k), TRANSFER_ENCODING) <==> k.Unknown?
  {
    hide Eqi, FormatDec;
    NamesDiffer();
    if k.Counted? {
      assert FramingField(k)[0].name == CONTENT_LENGTH;
    } else if k.Unknown? {
      assert FramingField(k)[0].name == TRANSFER_ENCODING;
    }
  }

  lemma ChunkedToken(hs: seq<Header>)
    requires CHUNKED in ValuesOf(hs, TRANSFER_ENCODING)
    ensures HasToken(hs, TRANSFER_ENCODING, CHUNKED)
  {
    hide ValuesOf, Eqi;
    NoComma();
    assert CHUNKED in SplitCommas(CHUNKED) && Eqi(Trim(CHUNKED), CHUNKED);
  }

  lemma NoComma()
    ensures SplitCommas(CHUNKED) == [CHUNKED] && Trim(CHUNKED) == CHUNKED && Eqi(CHUNKED, CHUNKED)
  {
    assert CHUNKED == [99, 104, 117, 110, 107, 101, 100];
    assert COMMA !in CHUNKED;
  }

  lemma LengthReads(n: nat)
    requires n < U64
    ensures ParseNumber(FormatDec(n), 10) == Some(n)
  {
    hide FormatDec, NumberValue;
    FormatDecDigits(n);
  }

  lemma LengthAgreed(n: nat)
    requires n < U64
    ensures AgreedLength([FormatDec(n)]) == Some(n)
  {
    hide FormatDec, ParseNumber;
    LengthReads(n);
  }

  /** The framing a server reads off a request's fields, if it accepts them. */
  function Effective(hs: seq<Header>): Option<BodyKind> {
    var te, cl := Has(hs, TRANSFER_ENCODING), Has(hs, CONTENT_LENGTH);
    if te && cl then None
    else if te then (if HasToken(hs, TRANSFER_ENCODING, CHUNKED) then Some(Unknown) else None)
    else if cl then
      match AgreedLength(ValuesOf(hs, CONTENT_LENGTH))
      case None => None
      case Some(n) => Some(Counted(n))
    else Some(NoBody)
  }

  lemma HeadFinishes(c: Config, p: Parser)
    requires c.isRequest && p.head.version == Http11 && p.framing == Framing(false, false, false, false)
    ensures FinishHead(c, p) ==
            match Effective(p.head.headers)
            case None => Fail(p.(headDone := true), BadMessage)
            case Some(e) => Turn(Framed(p, e), [Head(Framed(p, e), TotalFor(e))], Go)
  {
    hide Has, HasToken, AgreedLength, ValuesOf, Eqi;
  }

  lemma HasMeans(hs: seq<Header>, name: ByteSeq)
    ensures Has(hs, name) <==> ValuesOf(hs, name) != []
  {
    hide Eqi;
    if hs != [] {
      HasMeans(hs[1..], name);
      HasLast([hs[0]], hs[1..], name);
      assert [hs[0]] + hs[1..] == hs;
      assert Has([hs[0]], name) <==> Eqi([hs[0]][0].name, name);
    }
  }

  /** What is found among all the fields: what is found among the request's own, and the framing. */
  lemma FramingFound(r: Request, k: BodyKind)
    ensures Has(Fields(r, k), CONTENT_LENGTH) <==> Has(r.headers, CONTENT_LENGTH) || k.Counted?
    ensures Has(Fields(r, k), TRANSFER_ENCODING) <==> Has(r.headers, TRANSFER_ENCODING) || k.Unknown?
    ensures ValuesOf(Fields(r, k), CONTENT_LENGTH)
            == ValuesOf(r.headers, CONTENT_LENGTH) + (if k.Counted? then [FormatDec(k.n)] else [])
    ensures k.Unknown? ==> CHUNKED in ValuesOf(Fields(r, k), TRANSFER_ENCODING)
  {
    hide Eqi, Has, ValuesOf, FormatDec;
    var own, f := OwnFields(r), FramingField(k);
    OwnFound(r, CONTENT_LENGTH);
    OwnFound(r, TRANSFER_ENCODING);
    HasLast(own, f, CONTENT_LENGTH);
    HasLast(own, f, TRANSFER_ENCODING);
    ValuesSplit(own, f, CONTENT_LENGTH);
    ValuesSplit(own, f, TRANSFER_ENCODING);
    FramingHas(k);
    HasMeans(f, CONTENT_LENGTH);
    NamesDiffer();
    match k
    case NoBody =>
    case Counted(n) => OneValue(f[0], CONTENT_LENGTH);
    case Unknown => OneValue(f[0], TRANSFER_ENCODING);
  }

  lemma OwnFound(r: Request, name: ByteSeq)
    requires name == CONTENT_LENGTH || name == TRANSFER_ENCODING
    ensures Has(OwnFields(r), name) <==> Has(r.headers, name)
    ensures ValuesOf(OwnFields(r), name) == ValuesOf(r.headers, name)
  {
    hide Eqi, Has, ValuesOf;
    var host := if Has(r.headers, HOST) then [] else [Header(HOST, r.host)];
    assert OwnFields(r) == host + r.headers;
    NamesDiffer();
    NoValues(host, name);
    HasLast(host, r.headers, name);
    ValuesSplit(host, r.headers, name);
    assert [] + ValuesOf(r.headers, name) == ValuesOf(r.headers, name);
  }

  lemma AgreedIs(values: seq<ByteSeq>, n: nat)
    requires values != []
    ensures AgreedLength(values) == Some(n) <==> AllRead(values, n)
  {
    hide ParseNumber;
  }

  /** Whether what a server makes of the fields is the framing the body is sent with. */
  predicate Meets(k: BodyKind, e: Option<BodyKind>) { e == Some(k) || (k.NoBody? && e == Some(Counted(0))) }

  lemma AgreeingMeans(r: Request, k: BodyKind)
    requires k.Counted? ==> k.n < U64
    ensures Agreeing(r, k) <==> Meets(k, Effective(Fields(r, k)))
  {
    hide Has, HasToken, ValuesOf, AgreedLength, AllRead, Fields, FormatDec, ParseNumber;
    FramingFound(r, k);
    HasMeans(r.headers, CONTENT_LENGTH);
    var hs := Fields(r, k);
    var values := ValuesOf(hs, CONTENT_LENGTH);
    match k
    case Unknown => ChunkedToken(hs);
    case Counted(n) =>
      AgreedIs(values, n);
      LengthReads(n);
      AllReadLast(ValuesOf(r.headers, CONTENT_LENGTH), FormatDec(n), n);
    case NoBody =>
      assert values == ValuesOf(r.headers, CONTENT_LENGTH);
      if values != [] {
        AgreedIs(values, 0);
      } else {
        NoneRead();
      }
  }

  lemma NoneRead()
    ensures AllRead([], 0)
  {
  }

  lemma AllReadLast(values: seq<ByteSeq>, v: ByteSeq, n: nat)
    requires ParseNumber(v, 10) == Some(n)
    ensures AllRead(values + [v], n) <==> AllRead(values, n)
  {
    hide ParseNumber;
    var all := values + [v];
    assert all[|values|] == v && forall i :: 0 <= i < |values| ==> all[i] == values[i];
  }

  // ----- The whole request

  /** The parser past the request line. */
  function AfterLine(r: Request): Parser {
    INIT.(head := INIT.head.(methodName := r.methodName, target := r.target, version := Http11),
          state := Headers, headBytes := |RequestLine(r)| + 2)
  }

  /** And past the head, with the framing `e` read off it: what a server sees of the request when it is
      told of it. */
  function AfterHead(r: Request, k: BodyKind, e: BodyKind): Parser {
    Framed(WithFields(AfterLine(r), Fields(r, k)).(headBytes := |BuildHead(r, k)|), e)
  }

  /** A run that reports one head and then goes on as `e` does. */
  ghost predicate Begins(d: Run, head: Event, e: Run) {
    d == e.(events := [head] + e.events)
  }

  lemma FieldsOk(r: Request, k: BodyKind)
    ensures AllOk(Fields(r, k)) <==> AllOk(OwnFields(r))
  {
    hide FieldOk, OwnFields;
    FramingFieldOk(k);
    var own, f := OwnFields(r), FramingField(k);
    assert forall i :: 0 <= i < |own| ==> (own + f)[i] == own[i];
    assert forall i :: 0 <= i < |f| ==> (own + f)[|own| + i] == f[i];
  }

  lemma FramingFieldOk(k: BodyKind)
    ensures forall i :: 0 <= i < |FramingField(k)| ==> FieldOk(FramingField(k)[i])
  {
    hide FormatDec, TrimLeft, TrimRight;
    FramingNames();
    if k.Counted? {
      FormatDecDigits(k.n);
      TrimPlain(FormatDec(k.n));
    } else if k.Unknown? {
      NoComma();
    }
  }

  lemma HyphenIsToken()
    ensures IsTokenChar('-' as int)
  {
    var s := "!#$%&'*+-.^_`|~";
    assert s[8] == '-' && Ascii(s)[8] == 45;
  }

  predicate Lettered(s: string) {
    forall i :: 0 <= i < |s| ==> 'a' <= s[i] <= 'z' || 'A' <= s[i] <= 'Z' || s[i] == '-'
  }

  lemma LetteredIsToken(s: string)
    requires s != "" && Lettered(s)
    ensures IsToken(Ascii(s)) && PlainText(Ascii(s))
  {
    HyphenIsToken();
  }

  lemma FramingNames()
    ensures IsToken(CONTENT_LENGTH) && IsToken(TRANSFER_ENCODING) && PlainText(CHUNKED)
  {
    hide IsToken, PlainText, Ascii;
    LetteredIsToken("Content-Length");
    LetteredIsToken("Transfer-Encoding");
    LetteredIsToken("chunked");
  }

  lemma TrimPlain(s: ByteSeq)
    requires s != [] && forall i :: 0 <= i < |s| ==> '0' as int <= s[i] <= '9' as int
    ensures Trim(s) == s
  {
    assert !IsOWS(s[0]) && !IsOWS(s[|s| - 1]);
  }

  /** What becomes of a run once the head is in: refused, or told and read on. */
  ghost predicate HeadTaken(c: Config, r: Request, k: BodyKind, d: Run, rest: ByteSeq) {
    match Effective(Fields(r, k))
    case None => d.stop == Refused(false)
    case Some(e) => Begins(d, Head(AfterHead(r, k, e), TotalFor(e)), Drive(c, AfterHead(r, k, e), rest))
  }

  lemma HeadReads(c: Config, r: Request, k: BodyKind, rest: ByteSeq)
    requires c.isRequest && RequestOk(r) && Admits(c, r, k)
    ensures HeadTaken(c, r, k, Drive(c, INIT, BuildHead(r, k) + rest), rest)
  {
    hide Step, Drive, OnRequestLine, OnStatusLine, OnHeaderLine, FieldOk, FieldLine, OwnFields, Fields, RequestLine,
         HeadTaken;
    var line, hs := RequestLine(r), Fields(r, k);
    var src := BuildHead(r, k) + rest;
    var more := FieldLines(hs) + (CRLF + rest);
    assert src == line + CRLF + more;
    var p0 := INIT.(headBytes := |line| + 2);
    RequestLineReads(p0, r);
    HeadLineStep(c, INIT, line, more);
    Unfold(c, INIT, src);
    var p1 := AfterLine(r);
    SameRun(Drive(c, INIT, src), Drive(c, p1, more));
    FieldsOk(r, k);
    FieldsRead(c, p1, hs, CRLF + rest);
    var p2 := WithFields(p1, hs);
    EndReads(c, p2, r, k, rest);
  }

  lemma EndReads(c: Config, p: Parser, r: Request, k: BodyKind, rest: ByteSeq)
    requires c.isRequest && p == WithFields(AfterLine(r), Fields(r, k)) && 0 < c.lim.maxLineLen
    requires |BuildHead(r, k)| <= c.lim.maxHeadBytes < U32
    ensures HeadTaken(c, r, k, Drive(c, p, CRLF + rest), rest)
  {
    hide Step, Drive, FinishHead, Fields, RequestLine, FieldLines, Effective;
    assert CRLF + rest == [] + CRLF + rest;
    HeadLineStep(c, p, [], rest);
    var q := p.(headBytes := |BuildHead(r, k)|);
    assert [] + Fields(r, k) == Fields(r, k);
    HeadFinishes(c, q);
    Unfold(c, p, CRLF + rest);
  }

  /** A body of known length, all of it there. */
  lemma CountedReads(c: Config, p: Parser, body: ByteSeq, rest: ByteSeq)
    requires p.state.BodyLength? && p.length == |body| > 0 && Within(c, p.bodyTotal, |body|)
    ensures var d := Drive(c, p, body + rest); Decodes(d, body, rest) && !d.edge
  {
    hide Heads, BodyOf, Drive;
    var src := body + rest;
    assert src[..|body|] == body && src[|body|..] == rest;
    Unfold(c, p, src);
    var q := Step(c, p, src).p;
    EndedStays(c, q, rest);
    OneRun(body);
    assert [Body(body)] + [] == [Body(body)];
  }

  /** What goes on the wire for a body of each kind. Nobody compares the length that was declared for a
      body with what its stream gives. */
  ghost predicate BodyWire(c: Config, k: BodyKind, pieces: seq<ByteSeq>, wire: ByteSeq) {
    match k
    case NoBody => pieces == [] && wire == []
    case Counted(_) => wire == Concat(pieces)
    case Unknown => Sendable(c, pieces) && 16 < c.lim.maxLineLen && wire == ChunkFinish(Chunks(pieces))
  }

  /** The body is as long as was declared, if anything was. */
  predicate AsDeclared(k: BodyKind, body: ByteSeq) { k.Counted? ==> |body| == k.n }

  lemma BodyReads(c: Config, p: Parser, k: BodyKind, pieces: seq<ByteSeq>, wire: ByteSeq, rest: ByteSeq)
    requires BodyWire(c, k, pieces, wire) && AsDeclared(k, Concat(pieces))
    requires Within(c, p.bodyTotal, |Concat(pieces)|)
    requires p.state == StateFor(k) && (k.Counted? ==> p.length == k.n)
    ensures var d := Drive(c, p, wire + rest); Decodes(d, Concat(pieces), rest) && !d.edge
  {
    hide Drive, Heads, BodyOf, Chunks;
    match k
    case Unknown =>
      hide Wire, Content, CodedOk, Short;
      WrittenOk(c, pieces);
      WrittenWire(pieces);
      CodedDecodes(c, p, Written(pieces), rest);
    case Counted(n) =>
      if n > 0 {
        CountedReads(c, p, wire, rest);
      } else {
        assert wire + rest == rest;
        EndedStays(c, p, rest);
        NothingReported();
      }
    case NoBody =>
      assert wire + rest == rest && Concat(pieces) == [];
      EndedStays(c, p, rest);
      NothingReported();
  }

  /** A run that reports exactly one head, then `body`, and completes before `rest`. */
  ghost predicate Received(d: Run, head: Event, body: ByteSeq, rest: ByteSeq) {
    d.stop == Complete && d.rest == rest && Heads(d.events) == [head] && BodyOf(d.events) == body
  }

  /** The request as it was meant: one head, with the method, the target and every field it was written
      with, the whole body, and nothing of what follows. */
  ghost predicate Arrived(d: Run, r: Request, k: BodyKind, body: ByteSeq, rest: ByteSeq) {
    && d.stop == Complete && d.rest == rest && BodyOf(d.events) == body
    && |Heads(d.events)| == 1 && Heads(d.events)[0].Head?
    && var h := Heads(d.events)[0].p.head;
       h.methodName == r.methodName && h.target == r.target && h.version == Http11 && h.headers == Fields(r, k)
  }

  /** A request whose own fields agree with its framing, with a body framed in any of the three ways and
      as long as declared, and delivered in any fragments, arrives. */
  lemma RequestArrives(c: Config, r: Request, k: BodyKind, pieces: seq<ByteSeq>, wire: ByteSeq, rest: ByteSeq,
                       cuts: seq<ByteSeq>)
    requires c.isRequest && RequestOk(r) && Agreeing(r, k) && Admits(c, r, k) && (k.Counted? ==> k.n < U64)
    requires BodyWire(c, k, pieces, wire) && AsDeclared(k, Concat(pieces)) && Within(c, 0, |Concat(pieces)|)
    requires Join(cuts) == BuildHead(r, k) + (wire + rest)
    ensures Arrived(Feed(c, BEGIN, cuts), r, k, Concat(pieces), rest)
  {
    hide Drive, Feed, Heads, BodyOf, Join, BuildHead, BodyWire, Concat, Admits, RequestOk, Fields, Agreeing, Effective;
    AgreeingMeans(r, k);
    HeadReads(c, r, k, wire + rest);
    var e := Effective(Fields(r, k)).value;
    var p := AfterHead(r, k, e);
    BodyReads(c, p, k, pieces, wire, rest);
    var head := Head(p, TotalFor(e));
    var d := Drive(c, p, wire + rest);
    HeadsConcat([head], d.events);
    BodyConcat([head], d.events);
    OneHead(head);
    FragmentationIndependence(c, cuts);
    assert [] + Fields(r, k) == Fields(r, k);
  }

  lemma OneHead(e: Event)
    requires e.Head?
    ensures Heads([e]) == [e] && BodyOf([e]) == []
  {
    assert [e][1..] == [];
  }

  // ----- And when it does not

  /** A body is read where there was to be none: bytes are taken from what follows, or waited for. */
  lemma TakesWhatFollows(c: Config, p: Parser, rest: ByteSeq)
    requires p.state.BodyLength? && p.length > 0
    ensures var d := Drive(c, p, rest); !(d.stop == Complete && BodyOf(d.events) == [])
  {
    hide Drive, BodyOf;
    var n := BodyRun(p, |rest|);
    Unfold(c, p, rest);
    if n > 0 {
      BodyStep(c, p, rest);
      OneTurn(c, p, rest[..n]);
      OneRun(rest[..n]);
      var s := Step(c, p, rest);
      if s.stop == Go {
        BodyConcat(s.out, Drive(c, s.p, s.rest).events);
      }
    }
  }

  /** A counted body that completes is as long as it was announced. */
  lemma CountedTakes(c: Config, p: Parser, src: ByteSeq)
    requires p.state.BodyLength? && p.length > 0
    ensures var d := Drive(c, p, src); d.stop == Complete ==> |BodyOf(d.events)| == p.length
  {
    hide Drive, BodyOf;
    var n := BodyRun(p, |src|);
    Unfold(c, p, src);
    if n > 0 {
      BodyStep(c, p, src);
      OneTurn(c, p, src[..n]);
      OneRun(src[..n]);
      NothingReported();
      var s := Step(c, p, src);
      if s.stop == Go {
        BodyConcat(s.out, Drive(c, s.p, s.rest).events);
        if n < p.length {
          assert s.rest == [];
          StarvedInBody(c, s.p);
        } else {
          EndedStays(c, s.p, s.rest);
        }
      }
    }
  }

  /** So one whose stream gives more, or less, than was declared does not arrive, whatever follows it. */
  lemma WrongLengthAtOnce(c: Config, r: Request, n: nat, body: ByteSeq, rest: ByteSeq)
    requires c.isRequest && RequestOk(r) && Agreeing(r, Counted(n)) && Admits(c, r, Counted(n)) && n < U64
    requires |body| != n
    ensures !Arrived(Drive(c, INIT, BuildHead(r, Counted(n)) + (body + rest)), r, Counted(n), body, rest)
  {
    hide Drive, Heads, BodyOf, BuildHead, Admits, RequestOk, Fields, Agreeing, Effective;
    var k := Counted(n);
    AgreeingMeans(r, k);
    HeadReads(c, r, k, body + rest);
    var q := AfterHead(r, k, k);
    var head := Head(q, TotalFor(k));
    BodyConcat([head], Drive(c, q, body + rest).events);
    OneHead(head);
    if n > 0 {
      CountedTakes(c, q, body + rest);
    } else {
      EndedStays(c, q, body + rest);
      NothingReported();
    }
  }

  /** Or chunks are. */
  lemma ReadsWhatFollows(c: Config, p: Parser, rest: ByteSeq)
    requires p.state.ChunkSize?
    ensures var d := Drive(c, p, rest); !(d.stop == Complete && d.rest == rest)
  {
    hide Drive, Step;
    Unfold(c, p, rest);
    StepConsumes(c, p, rest);
    var s := Step(c, p, rest);
    if s.stop == Go {
      HttpCut.DriveShrinks(c, s.p, s.rest);
    } else {
      SizeNeverCompletes(c, p, rest);
    }
  }

  lemma SizeNeverCompletes(c: Config, p: Parser, rest: ByteSeq)
    requires p.state.ChunkSize?
    ensures Step(c, p, rest).stop != Complete
  {
    hide ReadLine, AtEdge, ParseNumber;
  }

  /** What a server can make of fields that carry the framing of `k`, if not what was meant. */
  lemma Otherwise(r: Request, k: BodyKind)
    requires (k.Counted? ==> k.n < U64) && !Agreeing(r, k)
    ensures var e := Effective(Fields(r, k));
            e.None? || (k.NoBody? && (e.value.Unknown? || (e.value.Counted? && e.value.n > 0)))
  {
    hide Has, HasToken, ValuesOf, AllRead, Fields, FormatDec, ParseNumber, Agreeing;
    AgreeingMeans(r, k);
    FramingFound(r, k);
    if k.Counted? {
      LengthReads(k.n);
      AgreedMeansLast(ValuesOf(r.headers, CONTENT_LENGTH), FormatDec(k.n));
    }
  }

  lemma AgreedMeansLast(values: seq<ByteSeq>, v: ByteSeq)
    ensures AgreedLength(values + [v]).Some? ==> AgreedLength(values + [v]) == ParseNumber(v, 10)
  {
    hide ParseNumber;
    assert (values + [v])[|values|] == v;
  }

  lemma MisreadAtOnce(c: Config, r: Request, k: BodyKind, pieces: seq<ByteSeq>, wire: ByteSeq, rest: ByteSeq)
    requires c.isRequest && RequestOk(r) && !Agreeing(r, k) && Admits(c, r, k) && (k.Counted? ==> k.n < U64)
    requires BodyWire(c, k, pieces, wire)
    ensures !Arrived(Drive(c, INIT, BuildHead(r, k) + (wire + rest)), r, k, Concat(pieces), rest)
  {
    hide Drive, Heads, BodyOf, BuildHead, Admits, RequestOk, Fields, Agreeing, Effective, Chunks;
    Otherwise(r, k);
    HeadReads(c, r, k, wire + rest);
    if Effective(Fields(r, k)).Some? {
      var e := Effective(Fields(r, k)).value;
      assert wire + rest == rest && Concat(pieces) == [];
      var p := AfterHead(r, k, e);
      var head := Head(p, TotalFor(e));
      BodyConcat([head], Drive(c, p, rest).events);
      OneHead(head);
      if e.Unknown? {
        ReadsWhatFollows(c, p, rest);
      } else {
        TakesWhatFollows(c, p, rest);
      }
    }
  }

  lemma OneRead(c: Config, src: ByteSeq)
    ensures Join([src]) == src && Feed(c, BEGIN, [src]) == Drive(c, INIT, src)
  {
    hide Drive;
    var cuts := [src];
    assert |cuts[1..]| == 0 && src + [] == src;
    var d := Drive(c, INIT, src);
    assert BEGIN.rest + src == src && BEGIN.events + d.events == d.events;
    assert Feed(c, BEGIN, cuts) == Feed(c, Resume(BEGIN, d), cuts[1..]);
  }

  /** A head that is reported as it was written can be written. */
  lemma ArrivedIsOk(c: Config, d: Run, r: Request, k: BodyKind, body: ByteSeq, rest: ByteSeq)
    requires c.isRequest && AllTold(c, d.events) && Arrived(d, r, k, body, rest)
    ensures RequestOk(r)
  {
    hide BodyOf, Fields, OwnFields;
    var e := HeadAmong(d.events);
    FieldsOk(r, k);
  }

  lemma {:induction false} HeadAmong(events: seq<Event>) returns (e: Event)
    requires |Heads(events)| > 0
    ensures e == Heads(events)[0] && e in events
  {
    if events[0].Body? {
      assert Heads(events) == [] + Heads(events[1..]) == Heads(events[1..]);
      e := HeadAmong(events[1..]);
    } else {
      e := events[0];
    }
  }

  /** A request arrives as it was meant, however it is delivered, if and only if it can be written on
      its lines, its own fields do not speak against its framing, and its body is as long as declared. */
  lemma RequestArrivesExactly(c: Config, r: Request, k: BodyKind, pieces: seq<ByteSeq>, wire: ByteSeq, rest: ByteSeq)
    requires c.isRequest && Admits(c, r, k) && (k.Counted? ==> k.n < U64)
    requires BodyWire(c, k, pieces, wire) && Within(c, 0, |Concat(pieces)|)
    ensures (forall cuts :: Join(cuts) == BuildHead(r, k) + (wire + rest) ==>
                              Arrived(Feed(c, BEGIN, cuts), r, k, Concat(pieces), rest))
            <==> RequestOk(r) && Agreeing(r, k) && AsDeclared(k, Concat(pieces))
  {
    hide Drive, Feed, Join, BuildHead, Concat, Chunks, Admits, RequestOk, Agreeing, Arrived, Within;
    var src := BuildHead(r, k) + (wire + rest);
    if RequestOk(r) && Agreeing(r, k) && AsDeclared(k, Concat(pieces)) {
      forall cuts | Join(cuts) == src ensures Arrived(Feed(c, BEGIN, cuts), r, k, Concat(pieces), rest) {
        RequestArrives(c, r, k, pieces, wire, rest, cuts);
      }
    } else {
      OneRead(c, src);
      var d := Feed(c, BEGIN, [src]);
      if RequestOk(r) && Agreeing(r, k) {
        WrongLengthAtOnce(c, r, k.n, wire, rest);
      } else if RequestOk(r) {
        MisreadAtOnce(c, r, k, pieces, wire, rest);
      } else if Arrived(d, r, k, Concat(pieces), rest) {
        ReportedIsClean(c, [src]);
        ArrivedIsOk(c, d, r, k, Concat(pieces), rest);
      }
    }
  }

  /** The request that goes wrong: it has no body but an own Content-Length, and the server takes that
      much of what follows it for one. */
  lemma LengthIsBelieved(c: Config, r: Request, body: ByteSeq, rest: ByteSeq, cuts: seq<ByteSeq>)
    requires c.isRequest && RequestOk(r) && Admits(c, r, NoBody) && body != [] && Within(c, 0, |body|)
    requires !Has(r.headers, TRANSFER_ENCODING) && Has(r.headers, CONTENT_LENGTH)
    requires AllRead(ValuesOf(r.headers, CONTENT_LENGTH), |body|)
    requires Join(cuts) == BuildHead(r, NoBody) + (body + rest)
    ensures Arrived(Feed(c, BEGIN, cuts), r, NoBody, body, rest)
  {
    hide Drive, Feed, Heads, BodyOf, Join, BuildHead, Admits, RequestOk, Fields, Has, ValuesOf, AllRead;
    FramingFound(r, NoBody);
    HasMeans(Fields(r, NoBody), CONTENT_LENGTH);
    assert ValuesOf(Fields(r, NoBody), CONTENT_LENGTH) == ValuesOf(r.headers, CONTENT_LENGTH);
    AgreedIs(ValuesOf(r.headers, CONTENT_LENGTH), |body|);
    HeadReads(c, r, NoBody, body + rest);
    var e := Counted(|body|);
    assert Effective(Fields(r, NoBody)) == Some(e);
    var p := AfterHead(r, NoBody, e);
    CountedReads(c, p, body, rest);
    var head := Head(p, TotalFor(e));
    var d := Drive(c, p, body + rest);
    HeadsConcat([head], d.events);
    BodyConcat([head], d.events);
    OneHead(head);
    FragmentationIndependence(c, cuts);
    assert [] + Fields(r, NoBody) == Fields(r, NoBody);
  }

  /** The other: the declared length is believed, too. What follows a body that falls short is taken to
      make it up, and what a body has too much is left as what follows. */
  lemma DeclaredIsBelieved(c: Config, r: Request, n: nat, stream: ByteSeq, rest: ByteSeq, cuts: seq<ByteSeq>)
    requires c.isRequest && RequestOk(r) && Agreeing(r, Counted(n)) && Admits(c, r, Counted(n)) && n < U64
    requires n <= |stream + rest| && Within(c, 0, n)
    requires Join(cuts) == BuildHead(r, Counted(n)) + (stream + rest)
    ensures Arrived(Feed(c, BEGIN, cuts), r, Counted(n), (stream + rest)[..n], (stream + rest)[n..])
  {
    hide Feed, Join, BuildHead, Admits, RequestOk, Agreeing, Arrived;
    var body, more := (stream + rest)[..n], (stream + rest)[n..];
    assert stream + rest == body + more;
    var pieces := [body];
    assert |pieces[1..]| == 0 && body + [] == body;
    assert Concat(pieces) == body;
    RequestArrives(c, r, Counted(n), pieces, body, more, cuts);
  }

  /** And with the body sent by a pump that has finished, chunked or counted. */
  lemma PumpedRequestArrives(c: Config, r: Request, k: BodyKind, pump: HttpPump.BodyPump, rest: ByteSeq)
    requires c.isRequest && Admits(c, r, k) && (k.Counted? ==> k.n < U64)
    requires pump.Valid() && !pump.writing && (if pump.chunked then k.Unknown? else k.Counted?)
    requires pump.chunked ==> 16 < c.lim.maxLineLen && HttpPump.READ_CHUNK <= c.lim.maxChunkSize
    requires Within(c, 0, |pump.produced|)
    ensures (forall cuts :: Join(cuts) == BuildHead(r, k) + (pump.wire + rest) ==>
                              Arrived(Feed(c, BEGIN, cuts), r, k, pump.produced, rest))
            <==> RequestOk(r) && Agreeing(r, k) && AsDeclared(k, pump.produced)
  {
    hide Feed, Join, BuildHead, Chunks, Concat, ChunkFinish, Arrived, Admits, RequestOk, Agreeing;
    assert pump.produced == Concat(pump.pieces) + [] == Concat(pump.pieces);
    RequestArrivesExactly(c, r, k, pump.pieces, pump.wire, rest);
  }

  // ----- Responses

  datatype Response = Response(status: nat, reason: ByteSeq, headers: seq<Header>)

  function StatusLine(r: Response): ByteSeq {
    Ascii("HTTP/1.1") + ([SP] + (FormatDec(r.status) + ([SP] + r.reason)))
  }

  function ResponseFields(r: Response, k: BodyKind): seq<Header> { r.headers + FramingField(k) }

  function BuildResponse(r: Response, k: BodyKind): ByteSeq {
    StatusLine(r) + CRLF + (FieldLines(ResponseFields(r, k)) + CRLF)
  }

  predicate ResponseOk(r: Response) {
    && 200 <= r.status <= 999 && PlainText(r.reason)
    && (forall i :: 0 <= i < |r.headers| ==>
          && FieldOk(r.headers[i]) && !Eqi(r.headers[i].name, CONTENT_LENGTH)
          && !Eqi(r.headers[i].name, TRANSFER_ENCODING))
  }

  predicate AdmitsResponse(c: Config, r: Response, k: BodyKind) {
    && |StatusLine(r)| < c.lim.maxLineLen
    && (forall i :: 0 <= i < |ResponseFields(r, k)| ==> |FieldLine(ResponseFields(r, k)[i])| < c.lim.maxLineLen)
    && 0 < c.lim.maxLineLen && |ResponseFields(r, k)| <= c.lim.maxHeaderCount
    && |BuildResponse(r, k)| <= c.lim.maxHeadBytes < U32
  }

  /** A response that has no body whatever its head says. */
  predicate Bodiless(c: Config, r: Response) { r.status == 204 || r.status == 304 || c.toHead }

  /** Where the parts of a status line are found. */
  lemma StatusLineParts(r: Response)
    requires PlainText(r.reason) && r.status < U64
    ensures var line, n := StatusLine(r), |FormatDec(r.status)|;
            && |line| >= n + 10 && line[..8] == Ascii("HTTP/1.1") && line[9..9 + n] == FormatDec(r.status)
            && line[n + 10..] == r.reason
            && FindByte(line, 0, SP) == Some(8) && FindByte(line, 9, SP) == Some(9 + n)
            && PlainText(line)
  {
    hide FindByte, FormatDec, NumberValue;
    var line, dec := StatusLine(r), FormatDec(r.status);
    FormatDecDigits(r.status);
    VersionIsPlain();
    assert line[0..8] == line[..8] == Ascii("HTTP/1.1");
    VersionHasNoSpace();
    FindsAt(line, 0, 8, SP);
    assert line[9..9 + |dec|] == dec;
    FindsAt(line, 9, 9 + |dec|, SP);
    assert line[|dec| + 10..] == r.reason;
  }

  lemma StatusLineReads(p: Parser, r: Response)
    requires 100 <= r.status <= 999 && PlainText(r.reason) && p.state.Start?
    ensures OnStatusLine(p, StatusLine(r))
            == Turn(p.(head := p.head.(version := Http11, status := r.status, reason := r.reason),
                       state := Headers), [], Go)
    ensures PlainText(StatusLine(r)) && StatusLine(r) != []
  {
    hide FindByte, FormatDec, NumberValue, ParseNumber, StatusLine, PlainText;
    StatusLineParts(r);
    LengthReads(r.status);
  }

  lemma VersionHasNoSpace()
    ensures SP !in Ascii("HTTP/1.1")
  {
  }

  /** The parser past a response's head: bodiless, counted, chunked, or running to the close. */
  function ResponseFramed(c: Config, p: Parser, r: Response, k: BodyKind): Parser {
    var p := p.(headDone := true, length := if k.Counted? then k.n else p.length);
    if Bodiless(c, r) then p.(state := Done, framing := Framing(true, k.Unknown?, k.Counted?, false))
    else if k.NoBody? then p.(state := BodyClose, framing := Framing(false, false, false, true))
    else p.(state := StateFor(k), framing := FramingFor(k))
  }

  function ResponseTotal(c: Config, r: Response, k: BodyKind): Option<nat> {
    if Bodiless(c, r) then Some(0) else if k.Counted? then Some(k.n) else None
  }

  lemma ResponseFramingFound(r: Response, k: BodyKind)
    requires ResponseOk(r)
    ensures Has(ResponseFields(r, k), CONTENT_LENGTH) <==> k.Counted?
    ensures Has(ResponseFields(r, k), TRANSFER_ENCODING) <==> k.Unknown?
    ensures k.Counted? ==> ValuesOf(ResponseFields(r, k), CONTENT_LENGTH) == [FormatDec(k.n)]
    ensures k.Unknown? ==> ValuesOf(ResponseFields(r, k), TRANSFER_ENCODING) == [CHUNKED]
  {
    hide Eqi, Has, ValuesOf, FieldOk;
    NamesDiffer();
    var own, f := r.headers, FramingField(k);
    NoValues(own, CONTENT_LENGTH);
    NoValues(own, TRANSFER_ENCODING);
    HasLast(own, f, CONTENT_LENGTH);
    HasLast(own, f, TRANSFER_ENCODING);
    ValuesSplit(own, f, CONTENT_LENGTH);
    ValuesSplit(own, f, TRANSFER_ENCODING);
    FramingHas(k);
    match k
    case NoBody =>
    case Counted(n) => OneValue(f[0], CONTENT_LENGTH);
    case Unknown => OneValue(f[0], TRANSFER_ENCODING);
  }

  lemma ResponseFinishes(c: Config, p: Parser, r: Response, k: BodyKind)
    requires !c.isRequest && ResponseOk(r) && p.head.headers == ResponseFields(r, k)
    requires p.head.version == Http11 && p.head.status == r.status
    requires p.framing == Framing(false, false, false, false) && (k.Counted? ==> k.n < U64)
    ensures var q := ResponseFramed(c, p, r, k);
            FinishHead(c, p) == Turn(q, [Head(q, ResponseTotal(c, r, k))], Go)
  {
    hide Has, HasToken, AgreedLength, ValuesOf, ResponseFields, Eqi, FieldOk;
    ResponseFramingFound(r, k);
    assert k.Unknown? ==> CHUNKED in ValuesOf(ResponseFields(r, k), TRANSFER_ENCODING);
    match k
    case NoBody =>
    case Counted(n) => LengthAgreed(n);
    case Unknown => ChunkedToken(p.head.headers);
  }

  function AfterStatus(r: Response): Parser {
    INIT.(head := INIT.head.(version := Http11, status := r.status, reason := r.reason),
          state := Headers, headBytes := |StatusLine(r)| + 2)
  }

  /** What a client sees of the response when it is told of it. */
  function AfterResponse(c: Config, r: Response, k: BodyKind): Parser {
    ResponseFramed(c, WithFields(AfterStatus(r), ResponseFields(r, k)).(headBytes := |BuildResponse(r, k)|), r, k)
  }

  lemma ResponseFieldsOk(r: Response, k: BodyKind)
    requires ResponseOk(r)
    ensures forall i :: 0 <= i < |ResponseFields(r, k)| ==> FieldOk(ResponseFields(r, k)[i])
  {
    FramingFieldOk(k);
    hide FieldOk;
  }

  lemma ResponseHeadReads(c: Config, r: Response, k: BodyKind, rest: ByteSeq)
    requires !c.isRequest && ResponseOk(r) && AdmitsResponse(c, r, k) && (k.Counted? ==> k.n < U64)
    ensures Begins(Drive(c, INIT, BuildResponse(r, k) + rest),
                   Head(AfterResponse(c, r, k), ResponseTotal(c, r, k)), Drive(c, AfterResponse(c, r, k), rest))
  {
    hide Step, Drive, OnRequestLine, OnStatusLine, OnHeaderLine, FieldOk, FieldLine, ResponseFields, StatusLine;
    var line, hs := StatusLine(r), ResponseFields(r, k);
    var src := BuildResponse(r, k) + rest;
    var more := FieldLines(hs) + (CRLF + rest);
    assert src == line + CRLF + more;
    StatusLineReads(INIT.(headBytes := |line| + 2), r);
    HeadLineStep(c, INIT, line, more);
    Unfold(c, INIT, src);
    var p1 := AfterStatus(r);
    SameRun(Drive(c, INIT, src), Drive(c, p1, more));
    ResponseFieldsOk(r, k);
    FieldsRead(c, p1, hs, CRLF + rest);
    ResponseEndReads(c, WithFields(p1, hs), r, k, rest);
  }

  lemma ResponseEndReads(c: Config, p: Parser, r: Response, k: BodyKind, rest: ByteSeq)
    requires !c.isRequest && ResponseOk(r) && (k.Counted? ==> k.n < U64)
    requires p == WithFields(AfterStatus(r), ResponseFields(r, k)) && 0 < c.lim.maxLineLen
    requires |BuildResponse(r, k)| <= c.lim.maxHeadBytes < U32
    ensures Begins(Drive(c, p, CRLF + rest), Head(AfterResponse(c, r, k), ResponseTotal(c, r, k)),
                   Drive(c, AfterResponse(c, r, k), rest))
  {
    hide Step, Drive, FinishHead, ResponseOk, ResponseFields, StatusLine, FieldLines;
    assert CRLF + rest == [] + CRLF + rest;
    HeadLineStep(c, p, [], rest);
    assert [] + ResponseFields(r, k) == ResponseFields(r, k);
    ResponseFinishes(c, p.(headBytes := |BuildResponse(r, k)|), r, k);
    Unfold(c, p, CRLF + rest);
  }

  /** A response whose head delimits its body, or that has none, reaches the client the same way:
      status, reason and fields as written, the body whole, and what follows it left unread. One that
      can have no body has none, whatever its head announced. */
  lemma ResponseArrives(c: Config, r: Response, k: BodyKind, pieces: seq<ByteSeq>, wire: ByteSeq, rest: ByteSeq,
                        cuts: seq<ByteSeq>)
    requires !c.isRequest && ResponseOk(r) && AdmitsResponse(c, r, k) && (k.Counted? ==> k.n < U64)
    requires if Bodiless(c, r) then pieces == [] && wire == []
             else !k.NoBody? && BodyWire(c, k, pieces, wire) && AsDeclared(k, Concat(pieces))
    requires Within(c, 0, |Concat(pieces)|) && Join(cuts) == BuildResponse(r, k) + (wire + rest)
    ensures Received(Feed(c, BEGIN, cuts), Head(AfterResponse(c, r, k), ResponseTotal(c, r, k)), Concat(pieces), rest)
    ensures var h := AfterResponse(c, r, k).head;
            h.status == r.status && h.reason == r.reason && h.headers == ResponseFields(r, k)
  {
    hide Drive, Feed, Heads, BodyOf, Join, BuildResponse, BodyWire, Concat, AdmitsResponse, ResponseOk, ResponseFields;
    ResponseHeadReads(c, r, k, wire + rest);
    ResponseBodyReads(c, r, k, pieces, wire, rest);
    var head := Head(AfterResponse(c, r, k), ResponseTotal(c, r, k));
    var e := Drive(c, AfterResponse(c, r, k), wire + rest);
    HeadsConcat([head], e.events);
    BodyConcat([head], e.events);
    OneHead(head);
    FragmentationIndependence(c, cuts);
    assert [] + ResponseFields(r, k) == ResponseFields(r, k);
  }

  lemma ResponseBodyReads(c: Config, r: Response, k: BodyKind, pieces: seq<ByteSeq>, wire: ByteSeq, rest: ByteSeq)
    requires if Bodiless(c, r) then pieces == [] && wire == []
             else !k.NoBody? && BodyWire(c, k, pieces, wire) && AsDeclared(k, Concat(pieces))
    requires Within(c, 0, |Concat(pieces)|)
    ensures var d := Drive(c, AfterResponse(c, r, k), wire + rest); Decodes(d, Concat(pieces), rest) && !d.edge
  {
    hide Drive, Heads, BodyOf, ResponseFields, StatusLine, FieldLines, Chunks;
    var p := AfterResponse(c, r, k);
    if Bodiless(c, r) || (k.Counted? && k.n == 0) {
      assert wire + rest == rest && Concat(pieces) == [];
      EndedStays(c, p, rest);
      NothingReported();
    } else if k.Counted? {
      CountedReads(c, p, wire, rest);
    } else {
      hide Wire, Content, CodedOk, Short;
      WrittenOk(c, pieces);
      WrittenWire(pieces);
      CodedDecodes(c, p, Written(pieces), rest);
    }
  }
}
