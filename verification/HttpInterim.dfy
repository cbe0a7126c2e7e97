/** Interim responses, and responses that run to the close: what a client is told of a response that other
    heads come before. */
module HttpInterim {
  import opened Bytes
  import opened HttpText
  import opened HttpLine
  import opened HttpParse
  import opened HttpChunk
  import opened HttpClean
  import opened HttpWire
  import HttpFraming

  predicate NoFraming(hs: seq<Header>) {
    forall i :: 0 <= i < |hs| ==> !Eqi(hs[i].name, CONTENT_LENGTH) && !Eqi(hs[i].name, TRANSFER_ENCODING)
  }

  predicate InterimOk(r: Response) {
    100 <= r.status < 200 && PlainText(r.reason) && AllOk(r.headers) && NoFraming(r.headers)
  }

  function Interims(rs: seq<Response>): ByteSeq {
    if rs == [] then [] else BuildResponse(rs[0], NoBody) + Interims(rs[1..])
  }

  /** A parser about to read a head: whatever heads came before it have left nothing but counts. */
  predicate Fresh(p: Parser) {
    p == INIT.(headBytes := p.headBytes, interim := p.interim)
  }

  /** The limits admit this head, so many bytes of others having been read. */
  predicate AdmitsAfter(c: Config, before: nat, r: Response, k: BodyKind) {
    && |StatusLine(r)| < c.lim.maxLineLen
    && (forall i :: 0 <= i < |ResponseFields(r, k)| ==> |FieldLine(ResponseFields(r, k)[i])| < c.lim.maxLineLen)
    && 0 < c.lim.maxLineLen && |ResponseFields(r, k)| <= c.lim.maxHeaderCount
    && before + |BuildResponse(r, k)| <= c.lim.maxHeadBytes < U32
  }

  /** The limits admit all of them, one after another. */
  predicate AdmitsAll(c: Config, before: nat, rs: seq<Response>, r: Response, k: BodyKind)
    decreases |rs|
  {
    if rs == [] then AdmitsAfter(c, before, r, k)
    else
      && AdmitsAfter(c, before, rs[0], NoBody)
      && AdmitsAll(c, before + |BuildResponse(rs[0], NoBody)|, rs[1..], r, k)
  }

  // ----- One head

  /** The parser with the lines of a head read, and not yet the blank one. */
  function LinesRead(p: Parser, r: Response, hs: seq<Header>): Parser {
    WithFields(p.(head := p.head.(version := Http11, status := r.status, reason := r.reason),
                  state := Headers, headBytes := p.headBytes + |StatusLine(r)| + 2), hs)
  }

  lemma HeadLinesRead(c: Config, p: Parser, r: Response, k: BodyKind, rest: ByteSeq)
    requires !c.isRequest && Fresh(p) && 100 <= r.status <= 999 && PlainText(r.reason) && AllOk(ResponseFields(r, k))
    requires AdmitsAfter(c, p.headBytes, r, k)
    ensures Drive(c, p, BuildResponse(r, k) + rest)
            == Drive(c, LinesRead(p, r, ResponseFields(r, k)), CRLF + rest)
  {
    hide Step, Drive, OnStatusLine, OnRequestLine, OnHeaderLine, FieldOk, FieldLine, ResponseFields, StatusLine;
    var line, hs := StatusLine(r), ResponseFields(r, k);
    var src := BuildResponse(r, k) + rest;
    var more := FieldLines(hs) + (CRLF + rest);
    assert src == line + CRLF + more;
    StatusLineReads(p.(headBytes := p.headBytes + |line| + 2), r);
    HeadLineStep(c, p, line, more);
    Unfold(c, p, src);
    var q := Step(c, p, src).p;
    SameRun(Drive(c, p, src), Drive(c, q, more));
    FieldsRead(c, q, hs, CRLF + rest);
  }

  /** The blank line: what it makes of the head comes first, and the rest is read on from there. */
  lemma BlankReads(c: Config, p: Parser, rest: ByteSeq)
    requires p.state.Headers? && 0 < c.lim.maxLineLen && p.headBytes + 2 <= c.lim.maxHeadBytes < U32
    ensures var u := FinishHead(c, p.(headBytes := p.headBytes + 2));
            u.stop == Go ==>
              var d, e := Drive(c, p, CRLF + rest), Drive(c, u.p, rest);
              d == e.(events := u.out + e.events)
  {
    hide Step, Drive, FinishHead;
    assert CRLF + rest == [] + CRLF + rest;
    HeadLineStep(c, p, [], rest);
    Unfold(c, p, CRLF + rest);
  }

  lemma NoFramingFound(hs: seq<Header>)
    requires NoFraming(hs)
    ensures !Has(hs, CONTENT_LENGTH) && !Has(hs, TRANSFER_ENCODING)
  {
    hide Eqi;
  }

  /** The parser as a caller is shown it with an interim response. */
  function AtInterim(p: Parser, r: Response): Parser {
    LinesRead(p, r, r.headers).(headBytes := p.headBytes + |BuildResponse(r, NoBody)|, headDone := true,
                                interim := p.interim + 1, state := Interim)
  }

  lemma InterimRead(c: Config, p: Parser, r: Response, rest: ByteSeq)
    requires !c.isRequest && Fresh(p) && InterimOk(r) && AdmitsAfter(c, p.headBytes, r, NoBody)
    requires p.interim < c.lim.maxInterim
    ensures var q := AtInterim(p, r);
            var d, e := Drive(c, p, BuildResponse(r, NoBody) + rest), Drive(c, ClearInterim(q), rest);
            d == e.(events := [InterimHead(q)] + e.events) && Fresh(ClearInterim(q))
  {
    hide Step, Drive, StatusLine, FieldLines, Eqi, FieldOk;
    assert ResponseFields(r, NoBody) == r.headers;
    HeadLinesRead(c, p, r, NoBody, rest);
    var p2 := LinesRead(p, r, r.headers);
    NoFramingFound(r.headers);
    assert [] + r.headers == r.headers;
    BlankReads(c, p2, rest);
    var q := AtInterim(p, r);
    assert FinishHead(c, p2.(headBytes := p2.headBytes + 2)) == Turn(q, [InterimHead(q)], Go) by {
      hide HasToken, AgreedLength, ValuesOf;
    }
    InterimCleared(c, q, rest);
  }

  lemma InterimCleared(c: Config, q: Parser, rest: ByteSeq)
    requires q.state.Interim?
    ensures Drive(c, q, rest) == Drive(c, ClearInterim(q), rest)
  {
    hide Drive;
    Unfold(c, q, rest);
    var e := Drive(c, ClearInterim(q), rest);
    assert [] + e.events == e.events;
  }

  /** One interim response too many. */
  lemma TooManyRefused(c: Config, p: Parser, r: Response, rest: ByteSeq)
    requires !c.isRequest && Fresh(p) && InterimOk(r) && AdmitsAfter(c, p.headBytes, r, NoBody)
    requires p.interim >= c.lim.maxInterim
    ensures var d := Drive(c, p, BuildResponse(r, NoBody) + rest);
            d.stop == Refused(false) && d.p.err == TooLarge && d.events == []
  {
    hide Step, Drive, StatusLine, FieldLines, Eqi, FieldOk;
    assert ResponseFields(r, NoBody) == r.headers;
    HeadLinesRead(c, p, r, NoBody, rest);
    var p2 := LinesRead(p, r, r.headers);
    NoFramingFound(r.headers);
    assert [] + r.headers == r.headers;
    assert CRLF + rest == [] + CRLF + rest;
    HeadLineStep(c, p2, [], rest);
    Unfold(c, p2, CRLF + rest);
    assert FinishHead(c, p2.(headBytes := p2.headBytes + 2)).stop == Refused(false) by {
      hide HasToken, AgreedLength, ValuesOf;
    }
  }

  // ----- All of them

  predicate Shows(h: HeadInfo, status: nat, reason: ByteSeq, headers: seq<Header>) {
    h.version == Http11 && h.status == status && h.reason == reason && h.headers == headers
  }

  /** What the heads reported are: one for each interim response, with what it said and nothing else, and
      one for the response. */
  predicate Tells(c: Config, heads: seq<Event>, rs: seq<Response>, r: Response, k: BodyKind) {
    && |heads| == |rs| + 1
    && (forall i :: 0 <= i < |rs| ==>
          heads[i].InterimHead? && Shows(heads[i].p.head, rs[i].status, rs[i].reason, rs[i].headers))
    && heads[|rs|].Head? && Shows(heads[|rs|].p.head, r.status, r.reason, ResponseFields(r, k))
    && heads[|rs|].total == ResponseTotal(c, r, k)
  }

  /** The parser once the head of the response is in. */
  predicate Headed(c: Config, p: Parser, r: Response, k: BodyKind) {
    && Shows(p.head, r.status, r.reason, ResponseFields(r, k))
    && p.state == ResponseFramed(c, p, r, k).state && (k.Counted? ==> p.length == k.n) && p.bodyTotal == 0
    && p == ResponseFramed(c, p, r, k)
  }

  /** A run that has told of all heads and goes on as a parser past them does. */
  ghost predicate HeadsTold(c: Config, d: Run, rs: seq<Response>, r: Response, k: BodyKind, q: Parser, src: ByteSeq) {
    && Headed(c, q, r, k)
    && var e := Drive(c, q, src);
       && d.p == e.p && d.rest == e.rest && d.stop == e.stop && d.edge == e.edge
       && |d.events| == |rs| + 1 + |e.events| && d.events[|rs| + 1..] == e.events
       && Tells(c, d.events[..|rs| + 1], rs, r, k)
  }

  lemma FinalRead(c: Config, p: Parser, r: Response, k: BodyKind, rest: ByteSeq) returns (q: Parser)
    requires !c.isRequest && Fresh(p) && ResponseOk(r) && AdmitsAfter(c, p.headBytes, r, k)
    requires k.Counted? ==> k.n < U64
    ensures HeadsTold(c, Drive(c, p, BuildResponse(r, k) + rest), [], r, k, q, rest)
  {
    hide Step, Drive, StatusLine, FieldLines, FinishHead, ResponseFields, FieldOk, Eqi;
    ResponseFieldsOk(r, k);
    HeadLinesRead(c, p, r, k, rest);
    var hs := ResponseFields(r, k);
    var p2 := LinesRead(p, r, hs);
    assert [] + hs == hs;
    BlankReads(c, p2, rest);
    var p3 := p2.(headBytes := p2.headBytes + 2);
    ResponseFinishes(c, p3, r, k);
    q := ResponseFramed(c, p3, r, k);
    assert ResponseFramed(c, q, r, k) == q;
  }

  lemma {:induction false} HeadsRead(c: Config, p: Parser, rs: seq<Response>, r: Response, k: BodyKind, rest: ByteSeq)
    returns (q: Parser)
    requires !c.isRequest && Fresh(p) && ResponseOk(r) && (k.Counted? ==> k.n < U64)
    requires forall i :: 0 <= i < |rs| ==> InterimOk(rs[i])
    requires AdmitsAll(c, p.headBytes, rs, r, k) && p.interim + |rs| <= c.lim.maxInterim
    ensures HeadsTold(c, Drive(c, p, Interims(rs) + (BuildResponse(r, k) + rest)), rs, r, k, q, rest)
    decreases |rs|
  {
    hide Step, Drive, BuildResponse, AdmitsAfter, InterimOk, ResponseOk, ResponseFields, Headed;
    var src := Interims(rs) + (BuildResponse(r, k) + rest);
    if rs == [] {
      assert src == BuildResponse(r, k) + rest;
      q := FinalRead(c, p, r, k, rest);
    } else {
      var more := Interims(rs[1..]) + (BuildResponse(r, k) + rest);
      assert src == BuildResponse(rs[0], NoBody) + more;
      InterimRead(c, p, rs[0], more);
      var at := AtInterim(p, rs[0]);
      var p1 := ClearInterim(at);
      q := HeadsRead(c, p1, rs[1..], r, k, rest);
      ShownAt(p, rs[0]);
      HeadsPrepend(c, Drive(c, p1, more), Drive(c, p, src), InterimHead(at), rs, r, k, q, rest);
    }
  }

  lemma ShownAt(p: Parser, r: Response)
    requires Fresh(p)
    ensures Shows(AtInterim(p, r).head, r.status, r.reason, r.headers)
  {
    hide FieldLines, StatusLine, BuildResponse;
    assert [] + r.headers == r.headers;
  }

  lemma HeadsPrepend(c: Config, d: Run, w: Run, e: Event, rs: seq<Response>, r: Response, k: BodyKind, q: Parser,
                     rest: ByteSeq)
    requires rs != [] && HeadsTold(c, d, rs[1..], r, k, q, rest) && w == d.(events := [e] + d.events)
    requires e.InterimHead? && Shows(e.p.head, rs[0].status, rs[0].reason, rs[0].headers)
    ensures HeadsTold(c, w, rs, r, k, q, rest)
  {
    hide Drive, Headed, ResponseFields, Shows;
    var n := |rs|;
    assert w.events[..n + 1] == [e] + d.events[..n];
    assert w.events[n + 1..] == d.events[n..];
  }

  lemma {:induction false} AllHeads(c: Config, heads: seq<Event>)
    requires forall i :: 0 <= i < |heads| ==> !heads[i].Body?
    ensures Heads(heads) == heads && BodyOf(heads) == []
  {
    if heads != [] {
      AllHeads(c, heads[1..]);
      assert [heads[0]] + heads[1..] == heads;
    }
  }

  lemma ToldEvents(c: Config, d: Run, rs: seq<Response>, r: Response, k: BodyKind, q: Parser, src: ByteSeq)
    requires HeadsTold(c, d, rs, r, k, q, src)
    ensures var e := Drive(c, q, src);
            Heads(d.events) == d.events[..|rs| + 1] + Heads(e.events) && BodyOf(d.events) == BodyOf(e.events)
  {
    hide Drive, Headed, ResponseFields, Heads, BodyOf;
    var n := |rs| + 1;
    assert d.events == d.events[..n] + d.events[n..];
    HeadsConcat(d.events[..n], d.events[n..]);
    BodyConcat(d.events[..n], d.events[n..]);
    forall i | 0 <= i < n ensures !d.events[..n][i].Body? {
      assert i < |rs| ==> d.events[..n][i].InterimHead?;
    }
    AllHeads(c, d.events[..n]);
    assert [] + BodyOf(d.events[n..]) == BodyOf(d.events[n..]);
  }

  lemma BodyAfter(c: Config, q: Parser, r: Response, k: BodyKind, pieces: seq<ByteSeq>, wire: ByteSeq, rest: ByteSeq)
    requires Headed(c, q, r, k) && Within(c, 0, |Concat(pieces)|)
    requires if Bodiless(c, r) then pieces == [] && wire == []
             else !k.NoBody? && BodyWire(c, k, pieces, wire) && AsDeclared(k, Concat(pieces))
    ensures var d := Drive(c, q, wire + rest); Decodes(d, Concat(pieces), rest) && !d.edge
  {
    hide Drive, Heads, BodyOf, BodyWire, Concat, ResponseFields;
    if Bodiless(c, r) {
      assert wire + rest == rest;
      NoPieces();
      EndedStays(c, q, rest);
      NothingReported();
    } else {
      BodyReads(c, q, k, pieces, wire, rest);
    }
  }

  lemma NoPieces()
    ensures Concat([]) == []
  {
  }

  /** Interim responses, as many as are permitted, and then a response, delivered in any fragments: the
      client is told of each with its own status, reason and fields and nobody else's, then of the
      response with its own; its body arrives whole, and what follows is left unread. */
  lemma AllArrive(c: Config, rs: seq<Response>, r: Response, k: BodyKind, pieces: seq<ByteSeq>, wire: ByteSeq,
                  rest: ByteSeq, cuts: seq<ByteSeq>)
    requires !c.isRequest && ResponseOk(r) && (k.Counted? ==> k.n < U64)
    requires forall i :: 0 <= i < |rs| ==> InterimOk(rs[i])
    requires |rs| <= c.lim.maxInterim && AdmitsAll(c, 0, rs, r, k)
    requires if Bodiless(c, r) then pieces == [] && wire == []
             else !k.NoBody? && BodyWire(c, k, pieces, wire) && AsDeclared(k, Concat(pieces))
    requires Within(c, 0, |Concat(pieces)|)
    requires Join(cuts) == Interims(rs) + (BuildResponse(r, k) + (wire + rest))
    ensures var g := Feed(c, BEGIN, cuts);
            && g.stop == Complete && g.rest == rest && BodyOf(g.events) == Concat(pieces)
            && Tells(c, Heads(g.events), rs, r, k)
  {
    hide Drive, Feed, Heads, BodyOf, Join, BuildResponse, BodyWire, Concat, ResponseOk, InterimOk, Headed, Tells;
    hide Interims, AdmitsAll;
    var q := HeadsRead(c, INIT, rs, r, k, wire + rest);
    BodyAfter(c, q, r, k, pieces, wire, rest);
    var w := Drive(c, INIT, Join(cuts));
    ToldEvents(c, w, rs, r, k, q, wire + rest);
    assert w.events[..|rs| + 1] + [] == w.events[..|rs| + 1];
    FragmentationIndependence(c, cuts);
  }

  /** A response whose head says nothing of a length runs to the close: all that arrives is its body, it is
      not complete before the close, and the close completes it. */
  lemma CloseDelimits(c: Config, rs: seq<Response>, r: Response, body: ByteSeq, cuts: seq<ByteSeq>)
    requires !c.isRequest && ResponseOk(r) && !Bodiless(c, r)
    requires forall i :: 0 <= i < |rs| ==> InterimOk(rs[i])
    requires |rs| <= c.lim.maxInterim && AdmitsAll(c, 0, rs, r, NoBody) && Within(c, 0, |body|)
    requires Join(cuts) == Interims(rs) + (BuildResponse(r, NoBody) + body)
    ensures var g := Feed(c, BEGIN, cuts);
            && g.stop == Starved && g.rest == [] && BodyOf(g.events) == body && Tells(c, Heads(g.events), rs, r, NoBody)
            && HttpFraming.AtEOF(g.p).stop == Complete
  {
    hide Drive, Feed, Heads, BodyOf, Join, BuildResponse, ResponseOk, InterimOk, Tells, Interims, AdmitsAll;
    var q := HeadsRead(c, INIT, rs, r, NoBody, body);
    ToTheClose(c, q, body);
    var w := Drive(c, INIT, Join(cuts));
    ToldEvents(c, w, rs, r, NoBody, q, body);
    assert w.events[..|rs| + 1] + [] == w.events[..|rs| + 1];
    FragmentationIndependence(c, cuts);
  }

  lemma ToTheClose(c: Config, p: Parser, body: ByteSeq)
    requires p.state.BodyClose? && Within(c, p.bodyTotal, |body|)
    ensures var d := Drive(c, p, body);
            && d.stop == Starved && d.rest == [] && !d.edge && d.p.state.BodyClose?
            && Heads(d.events) == [] && BodyOf(d.events) == body
  {
    hide Drive, Heads, BodyOf;
    NothingReported();
    Unfold(c, p, body);
    if body != [] {
      assert body[..|body|] == body && body[|body|..] == [];
      BodyStep(c, p, body);
      OneTurn(c, p, body);
      var q := Step(c, p, body).p;
      StarvedInBody(c, q);
      OneRun(body);
      assert [Body(body)] + [] == [Body(body)];
    }
  }
}
