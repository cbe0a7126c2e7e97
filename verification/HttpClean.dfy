/** What the HTTP/1.1 parser reports of a head is well formed, whatever it was sent and however it
    arrived. */
module HttpClean {
  import opened Bytes
  import opened HttpText
  import opened HttpLine
  import opened HttpParse

  predicate PlainText(s: ByteSeq) { forall i :: 0 <= i < |s| ==> s[i] != CR && s[i] != LF }

  predicate FieldOk(h: Header) { IsToken(h.name) && PlainText(h.value) && Trim(h.value) == h.value }

  predicate AllOk(hs: seq<Header>) { forall i :: 0 <= i < |hs| ==> FieldOk(hs[i]) }

  /** A method and a target that one request line can hold. */
  predicate LineOk(methodName: ByteSeq, target: ByteSeq) {
    IsToken(methodName) && target != [] && PlainText(target) && SP !in target
  }

  /** What holds of the parser between steps. */
  predicate Clean(c: Config, p: Parser) {
    && AllOk(p.head.headers) && PlainText(p.head.reason)
    && (c.isRequest && !p.state.Start? && !p.state.Failed? ==> LineOk(p.head.methodName, p.head.target))
  }

  /** And of the parser a caller is shown. */
  predicate Told(c: Config, e: Event) { e.Body? || (Clean(c, e.p) && !e.p.state.Start? && !e.p.state.Failed?) }

  predicate AllTold(c: Config, events: seq<Event>) { forall i :: 0 <= i < |events| ==> Told(c, events[i]) }

  lemma PartIsPlain(s: ByteSeq, i: nat, j: nat)
    requires PlainText(s) && i <= j <= |s|
    ensures PlainText(s[i..j])
  {
  }

  lemma {:induction false} TrimLeftIs(s: ByteSeq) returns (k: nat)
    ensures k <= |s| && TrimLeft(s) == s[k..] && (k < |s| ==> !IsOWS(s[k]))
  {
    if s != [] && IsOWS(s[0]) {
      k := TrimLeftIs(s[1..]);
      k := k + 1;
    } else {
      k := 0;
    }
  }

  lemma {:induction false} TrimRightIs(s: ByteSeq) returns (k: nat)
    ensures k <= |s| && TrimRight(s) == s[..k] && (k > 0 ==> !IsOWS(s[k - 1]))
  {
    if s != [] && IsOWS(s[|s| - 1]) {
      k := TrimRightIs(s[..|s| - 1]);
      assert s[..|s| - 1][..k] == s[..k];
    } else {
      k := |s|;
    }
  }

  lemma TrimmedIs(s: ByteSeq)
    ensures Trim(Trim(s)) == Trim(s)
    ensures PlainText(s) ==> PlainText(Trim(s))
  {
    var i := TrimLeftIs(s);
    var a := TrimLeft(s);
    var j := TrimRightIs(a);
    var t := Trim(s);
    if t != [] {
      assert t[0] == a[0] == s[i] && t[|t| - 1] == a[j - 1];
      assert TrimLeft(t) == t && TrimRight(t) == t;
    }
  }

  // ----- Lines

  lemma {:induction false} ScannedIsPlain(w: ByteSeq, bareLF: bool, i: nat)
    requires Scan(w, bareLF, i).Ends? && PlainText(w[..Min(i, Scan(w, bareLF, i).eol)])
    requires i <= |w| && (i > 0 ==> w[i - 1] == CR ==> (i < |w| && w[i] == LF))
    ensures PlainText(w[..Scan(w, bareLF, i).eol])
    decreases |w| - i
  {
    var eol := Scan(w, bareLF, i).eol;
    if w[i] != LF {
      assert Scan(w, bareLF, i) == Scan(w, bareLF, i + 1);
      if eol > i {
        assert w[..i + 1] == w[..i] + [w[i]];
      }
      ScannedIsPlain(w, bareLF, i + 1);
    }
  }

  lemma LineIsPlain(src: ByteSeq, limit: nat, bareLF: bool)
    requires ReadLine(src, limit, bareLF).Got?
    ensures PlainText(ReadLine(src, limit, bareLF).line)
  {
    var w := Window(src, limit);
    ScannedIsPlain(w, bareLF, 0);
  }

  // ----- What a line makes of the parser

  lemma StatusClean(c: Config, p: Parser, line: ByteSeq)
    requires Clean(c, p) && PlainText(line) && !c.isRequest
    ensures Clean(c, OnStatusLine(p, line).p) && OnStatusLine(p, line).out == []
  {
    hide ParseNumber, ParseVersion, FieldOk, IsToken;
  }

  lemma RequestClean(c: Config, p: Parser, line: ByteSeq)
    requires Clean(c, p) && PlainText(line) && p.state.Start?
    ensures Clean(c, OnRequestLine(p, line).p) && OnRequestLine(p, line).out == []
  {
    hide ParseVersion, FieldOk, IsToken;
    var sp1 := FindByte(line, 0, SP);
    if sp1.Some? {
      var sp2 := FindByte(line, sp1.value + 1, SP);
      if sp2.Some? {
        PartIsPlain(line, sp1.value + 1, sp2.value);
      }
    }
  }

  lemma FinishClean(c: Config, p: Parser)
    requires Clean(c, p) && p.state.Headers?
    ensures var t := FinishHead(c, p); Clean(c, t.p) && AllTold(c, t.out)
  {
    hide Has, HasToken, AgreedLength, ValuesOf, AllOk, LineOk, PlainText;
  }

  lemma HeaderClean(c: Config, p: Parser, line: ByteSeq)
    requires Clean(c, p) && PlainText(line) && p.state.Headers?
    ensures var t := OnHeaderLine(c, p, line); Clean(c, t.p) && AllTold(c, t.out)
  {
    hide FinishHead, Trim, IsToken, LineOk;
    FinishClean(c, p);
    var colon := FindByte(line, 0, COLON);
    if colon.Some? {
      PartIsPlain(line, colon.value + 1, |line|);
      TrimmedIs(line[colon.value + 1..]);
    }
  }

  lemma LineClean(c: Config, p: Parser, line: ByteSeq)
    requires Clean(c, p) && PlainText(line) && ReadsLine(p.state)
    ensures var t := OnLine(c, p, line); Clean(c, t.p) && AllTold(c, t.out)
  {
    hide FinishHead, OnStatusLine, OnRequestLine, OnHeaderLine, ParseNumber, LineOk, AllOk, PlainText;
    match p.state
    case Start =>
      if line != [] {
        if c.isRequest {
          RequestClean(c, p, line);
        } else {
          StatusClean(c, p, line);
        }
      }
    case Headers => HeaderClean(c, p, line);
    case _ =>
  }

  lemma StepClean(c: Config, p: Parser, src: ByteSeq)
    requires Clean(c, p)
    ensures var a := Step(c, p, src); Clean(c, a.p) && AllTold(c, a.out)
  {
    hide OnLine, ReadLine, AtEdge, LineOk, AllOk, PlainText;
    if ReadsLine(p.state) {
      var r := ReadLine(src, c.lim.maxLineLen, InHead(p.state));
      if r.Got? {
        LineIsPlain(src, c.lim.maxLineLen, InHead(p.state));
        LineClean(c, p.(headBytes := (p.headBytes + r.skip) % U32), r.line);
      }
    } else if p.state.Interim? {
      NothingIsClean();
    }
  }

  lemma NothingIsClean()
    ensures AllOk([]) && PlainText([])
  {
  }

  lemma {:induction false} DriveClean(c: Config, p: Parser, src: ByteSeq)
    requires Clean(c, p)
    ensures var d := Drive(c, p, src); Clean(c, d.p) && AllTold(c, d.events)
    decreases |src|, p.state == Interim
  {
    hide Step, Clean, Told;
    StepConsumes(c, p, src);
    StepClean(c, p, src);
    var a := Step(c, p, src);
    if a.stop == Go {
      DriveClean(c, a.p, a.rest);
    }
  }

  lemma {:induction false} FeedClean(c: Config, d: Run, chunks: seq<ByteSeq>)
    requires Clean(c, d.p) && AllTold(c, d.events)
    ensures AllTold(c, Feed(c, d, chunks).events)
    decreases |chunks|
  {
    hide Drive, Clean, Told;
    if chunks != [] {
      DriveClean(c, d.p, d.rest + chunks[0]);
      FeedClean(c, Resume(d, Drive(c, d.p, d.rest + chunks[0])), chunks[1..]);
    }
  }

  /** Every head reported, interim or final, of any stream in any pieces: its field names are tokens,
      its values and reason hold no line end, its values no space around them; and a request has a
      token for a method and a target that fits on its line. */
  lemma ReportedIsClean(c: Config, chunks: seq<ByteSeq>)
    ensures AllTold(c, Feed(c, BEGIN, chunks).events)
  {
    FeedClean(c, BEGIN, chunks);
  }
}
