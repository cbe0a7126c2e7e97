/** HTTP/1.1 heads, by their grammar (sections 2 to 6 of RFC 9112): which blocks of lines are a head, what
    the caller is then told, and for every other block the error of the first line at fault. */
module HttpHead {
  import opened Bytes
  import opened HttpText
  import opened HttpLine
  import opened HttpParse
  import opened HttpChunk
  import opened HttpClean

  // ----- Lines as they arrive

  /** A line and how it ends: a bare LF will do in a head. */
  datatype Line = Line(text: ByteSeq, crlf: bool)

  function Raw(l: Line): ByteSeq { l.text + if l.crlf then [CR, LF] else [LF] }

  function RawAll(ls: seq<Line>): ByteSeq {
    if ls == [] then [] else Raw(ls[0]) + RawAll(ls[1..])
  }

  /** A line no longer, with its end, than the longest permitted one and CR LF. */
  predicate Readable(l: Line, limit: nat) { PlainText(l.text) && |Raw(l)| <= limit + 2 }

  /** A head: blank lines that are skipped, the start line, the fields, and the blank line after them. */
  datatype Block = Block(blanks: seq<Line>, start: Line, fields: seq<Line>, end: Line)

  function LinesOf(b: Block): (ls: seq<Line>)
    ensures |ls| == |b.blanks| + |b.fields| + 2
  {
    b.blanks + [b.start] + b.fields + [b.end]
  }

  predicate Formed(c: Config, b: Block) {
    && (forall i :: 0 <= i < |b.blanks| ==> b.blanks[i].text == [])
    && b.start.text != [] && b.end.text == []
    && (forall i :: 0 <= i < |b.fields| ==> b.fields[i].text != [])
    && (forall i :: 0 <= i < |LinesOf(b)| ==> Readable(LinesOf(b)[i], c.lim.maxLineLen))
  }

  /** Lines are read by their first CR or LF: within the window, which is the longest line and CR LF. */
  lemma LineExactly(src: ByteSeq, limit: nat, bareLF: bool, e: nat)
    requires var w := Window(src, limit);
             e <= |w| && PlainText(w[..e]) && (e < |w| ==> w[e] == CR || w[e] == LF)
    ensures var w := Window(src, limit);
            ReadLine(src, limit, bareLF)
            == if e < |w| && w[e] == LF then (if bareLF then Got(w[..e], e + 1) else Malformed)
               else if e + 1 < |w| then (if w[e + 1] == LF then Got(w[..e], e + 2) else Malformed)
               else if |src| > limit then TooLong
               else Incomplete
  {
    var w := Window(src, limit);
    assert forall k :: 0 <= k < e ==> w[k] == w[..e][k];
    ScanReaches(w, bareLF, e, 0);
  }

  lemma {:induction false} ScanReaches(w: ByteSeq, bareLF: bool, e: nat, i: nat)
    requires i <= e <= |w| && (forall k :: 0 <= k < e ==> w[k] != CR && w[k] != LF)
    requires e < |w| ==> w[e] == CR || w[e] == LF
    ensures Scan(w, bareLF, i)
            == if e < |w| && w[e] == LF then (if bareLF then Ends(e, e + 1) else Bad)
               else if e + 1 < |w| then (if w[e + 1] == LF then Ends(e, e + 2) else Bad)
               else Undecided
    decreases e - i
  {
    if i < e {
      ScanReaches(w, bareLF, e, i + 1);
    } else if e + 1 < |w| && w[e] == CR && w[e + 1] == LF {
      assert Scan(w, bareLF, e + 1) == Ends(e, e + 2);
    }
  }

  // ----- The text of a field (sections 5.5 and 5.6 of RFC 9110)

  /** A token is made of the visible characters that are not delimiters. */
  lemma TokenExactly(s: ByteSeq)
    ensures IsToken(s) <==>
            s != [] && forall i :: 0 <= i < |s| ==> 33 <= s[i] <= 126 && s[i] !in Ascii("\"(),/:;<=>?@[\\]{}")
  {
    forall c: Byte ensures IsTokenChar(c) <==> 33 <= c <= 126 && c !in Ascii("\"(),/:;<=>?@[\\]{}") {
      TokenCharIs(c);
    }
  }

  lemma MarksAre(c: Byte)
    ensures c in Ascii("!#$%&'*+-.^_`|~")
            <==> c == 33 || 35 <= c <= 39 || c == 42 || c == 43 || c == 45 || c == 46 || 94 <= c <= 96
                 || c == 124 || c == 126
  {
    assert Ascii("!#$%&'*+-.^_`|~") == [33, 35, 36, 37, 38, 39, 42, 43, 45, 46, 94, 95, 96, 124, 126];
  }

  lemma DelimitersAre(c: Byte)
    ensures c in Ascii("\"(),/:;<=>?@[\\]{}")
            <==> c == 34 || c == 40 || c == 41 || c == 44 || c == 47 || 58 <= c <= 64 || 91 <= c <= 93
                 || c == 123 || c == 125
  {
    assert Ascii("\"(),/:;<=>?@[\\]{}") == [34, 40, 41, 44, 47, 58, 59, 60, 61, 62, 63, 64, 91, 92, 93, 123, 125];
  }

  lemma TokenCharIs(c: Byte)
    ensures IsTokenChar(c) <==> 33 <= c <= 126 && c !in Ascii("\"(),/:;<=>?@[\\]{}")
  {
    hide Ascii;
    MarksAre(c);
    DelimitersAre(c);
  }

  /** Trimming leaves the least run with only spaces and tabs around it. */
  lemma TrimExactly(s: ByteSeq, i: nat, j: nat)
    requires i <= j <= |s| && (forall k :: 0 <= k < i ==> s[k] == 32 || s[k] == 9)
    requires forall k :: j <= k < |s| ==> s[k] == 32 || s[k] == 9
    requires i < j ==> s[i] !in {9, 32} && s[j - 1] !in {9, 32}
    ensures Trim(s) == s[i..j]
  {
    if i == j {
      LeftTrims(s, |s|);
    } else {
      LeftTrims(s, i);
      RightTrims(s[i..], j - i);
      assert s[i..][..j - i] == s[i..j];
    }
  }

  lemma {:induction false} LeftTrims(s: ByteSeq, i: nat)
    requires i <= |s| && (forall k :: 0 <= k < i ==> IsOWS(s[k])) && (i < |s| ==> !IsOWS(s[i]))
    ensures TrimLeft(s) == s[i..]
    decreases i
  {
    if i > 0 {
      LeftTrims(s[1..], i - 1);
      assert s[1..][i - 1..] == s[i..];
    } else {
      assert s[0..] == s;
    }
  }

  lemma {:induction false} RightTrims(s: ByteSeq, j: nat)
    requires j <= |s| && (forall k :: j <= k < |s| ==> IsOWS(s[k])) && (j > 0 ==> !IsOWS(s[j - 1]))
    ensures TrimRight(s) == s[..j]
    decreases |s|
  {
    if j < |s| {
      RightTrims(s[..|s| - 1], j);
      assert s[..|s| - 1][..j] == s[..j];
    } else {
      assert s[..j] == s;
    }
  }

  /** Two names are the same when they differ at most in the case of letters. */
  lemma CaseExactly(a: ByteSeq, b: ByteSeq)
    ensures Eqi(a, b) <==> |a| == |b| && forall i :: 0 <= i < |a| ==> SameLetter(a[i], b[i])
  {
    forall x: Byte, y: Byte ensures LowerByte(x) == LowerByte(y) <==> SameLetter(x, y) {
    }
    if Eqi(a, b) {
      forall i | 0 <= i < |a| ensures SameLetter(a[i], b[i]) {
        assert LowerBytes(a)[i] == LowerBytes(b)[i];
      }
    } else if |a| == |b| {
      var i :| 0 <= i < |a| && LowerBytes(a)[i] != LowerBytes(b)[i];
      assert !SameLetter(a[i], b[i]);
    }
  }

  predicate SameLetter(x: Byte, y: Byte) {
    x == y || (65 <= x <= 90 && y == x + 32) || (65 <= y <= 90 && x == y + 32)
  }

  /** Leading zeros are no part of a number, however many. */
  lemma LeadingZero(s: ByteSeq, base: nat)
    requires s != [] && 2 <= base <= 16
    ensures ParseNumber(['0' as int] + s, base) == ParseNumber(s, base)
  {
    hide NumberValue;
    var t := ['0' as int] + s;
    assert forall i :: 0 <= i < |s| ==> t[i + 1] == s[i];
    if forall i :: 0 <= i < |s| ==> IsDigit(s[i], base) {
      assert forall i :: 0 <= i < |t| ==> IsDigit(t[i], base);
      ZeroAdds(s, t, base);
    } else {
      var i :| 0 <= i < |s| && !IsDigit(s[i], base);
      assert !IsDigit(t[i + 1], base);
    }
  }

  lemma {:induction false} ZeroAdds(s: ByteSeq, t: ByteSeq, base: nat)
    requires 2 <= base <= 16 && t == ['0' as int] + s
    requires (forall i :: 0 <= i < |s| ==> IsDigit(s[i], base)) && (forall i :: 0 <= i < |t| ==> IsDigit(t[i], base))
    ensures NumberValue(t, base) == NumberValue(s, base)
    decreases |s|
  {
    if s == [] {
      assert t[..0] == [];
    } else {
      var f := s[..|s| - 1];
      assert t[..|t| - 1] == ['0' as int] + f;
      ZeroAdds(f, t[..|t| - 1], base);
    }
  }

  // ----- What the lines say

  function Spelled(v: Version): ByteSeq {
    match v
    case UnknownVersion => []
    case Http10 => Ascii("HTTP/1.0")
    case Http11 => Ascii("HTTP/1.1")
  }

  predicate RequestLineIs(text: ByteSeq, m: ByteSeq, t: ByteSeq, v: Version) {
    IsToken(m) && t != [] && SP !in t && v != UnknownVersion && text == m + [SP] + t + [SP] + Spelled(v)
  }

  predicate Decimal(s: ByteSeq, n: nat) { ParseNumber(s, 10) == Some(n) }

  /** The reason may be missing, and the space before it then too. */
  predicate StatusLineIs(text: ByteSeq, v: Version, digits: ByteSeq, status: nat, reason: ByteSeq) {
    && v != UnknownVersion && Decimal(digits, status) && 100 <= status <= 999
    && (text == Spelled(v) + [SP] + digits + [SP] + reason || (reason == [] && text == Spelled(v) + [SP] + digits))
  }

  /** What a start line says goes into `h`, and nothing else does. */
  ghost predicate StartIs(c: Config, text: ByteSeq, h: HeadInfo) {
    if c.isRequest then
      RequestLineIs(text, h.methodName, h.target, h.version) && h.status == 0 && h.reason == []
    else
      && (exists digits :: StatusLineIs(text, h.version, digits, h.status, h.reason))
      && h.methodName == [] && h.target == []
  }

  predicate FieldIs(text: ByteSeq, val: ByteSeq, h: Header) {
    IsToken(h.name) && text == h.name + [COLON] + val && h.value == Trim(val)
  }

  ghost predicate IsField(text: ByteSeq, h: Header) { exists val :: FieldIs(text, val, h) }

  // ----- Start lines

  lemma SplitOnce(a: ByteSeq, b: ByteSeq, c: Byte)
    requires c !in a
    ensures FindByte(a + [c] + b, 0, c) == Some(|a|)
    ensures (a + [c] + b)[..|a|] == a && (a + [c] + b)[|a| + 1..] == b
  {
    var s := a + [c] + b;
    assert s[|a|] == c;
    assert forall i :: 0 <= i < |a| ==> s[i] == a[i];
  }

  lemma FindFrom(s: ByteSeq, from: nat, c: Byte)
    requires from <= |s|
    ensures var r, t := FindByte(s, from, c), FindByte(s[from..], 0, c);
            (r.None? <==> t.None?) && (r.Some? ==> r.value == from + t.value)
  {
    var t := s[from..];
    assert forall i :: 0 <= i < |t| ==> t[i] == s[from + i];
  }

  lemma TokenHasNoSpace(m: ByteSeq)
    requires IsToken(m)
    ensures SP !in m && COLON !in m
  {
  }

  lemma VersionsDiffer(s: ByteSeq)
    ensures forall v: Version :: v != UnknownVersion ==> (ParseVersion(s) == v <==> s == Spelled(v))
    ensures forall v: Version :: v != UnknownVersion ==> SP !in Spelled(v) && Spelled(v) != []
  {
    assert Ascii("HTTP/1.0")[7] != Ascii("HTTP/1.1")[7];
  }

  lemma RequestLineReads(p: Parser, line: ByteSeq, m: ByteSeq, t: ByteSeq, v: Version)
    requires RequestLineIs(line, m, t, v)
    ensures OnRequestLine(p, line)
            == Turn(p.(head := p.head.(methodName := m, target := t, version := v), state := Headers), [], Go)
  {
    hide FindByte, ParseVersion, IsToken, Spelled;
    TokenHasNoSpace(m);
    var tail := t + [SP] + Spelled(v);
    assert line == m + [SP] + tail;
    SplitOnce(m, tail, SP);
    SplitOnce(t, Spelled(v), SP);
    FindFrom(line, |m| + 1, SP);
    var sp2 := |m| + 1 + |t|;
    assert line[|m| + 1..sp2] == tail[..|t|] && line[sp2 + 1..] == tail[|t| + 1..];
    VersionsDiffer(Spelled(v));
    IsTokenSome(m);
  }

  lemma IsTokenSome(m: ByteSeq)
    requires IsToken(m)
    ensures m != []
  {
  }

  /** A start line that is refused, or taken with nothing told yet. */
  predicate Decided(u: Turn) {
    u.out == [] && (u.stop != Go ==> u.stop == Refused(false) && u.p.state == Failed && u.p.err == BadMessage)
  }

  lemma StartDecided(p: Parser, line: ByteSeq)
    ensures Decided(OnRequestLine(p, line)) && Decided(OnStatusLine(p, line))
  {
    hide FindByte, ParseVersion, ParseNumber, IsToken;
  }

  lemma RequestLineFound(p: Parser, line: ByteSeq)
    requires OnRequestLine(p, line).stop == Go
    ensures var q := OnRequestLine(p, line).p;
            && RequestLineIs(line, q.head.methodName, q.head.target, q.head.version)
            && q == p.(head := p.head.(methodName := q.head.methodName, target := q.head.target,
                                       version := q.head.version), state := Headers)
  {
    hide ParseVersion, IsToken, Spelled;
    var sp1 := FindByte(line, 0, SP).value;
    var sp2 := FindByte(line, sp1 + 1, SP).value;
    VersionsDiffer(line[sp2 + 1..]);
    var m, t := line[..sp1], line[sp1 + 1..sp2];
    assert SP !in t by {
      assert forall i :: 0 <= i < |t| ==> t[i] == line[sp1 + 1 + i];
    }
    assert line == m + [SP] + t + [SP] + line[sp2 + 1..];
  }

  /** A request line is taken exactly when it has the form of one, and says what it says. */
  lemma RequestLineExactly(p: Parser, line: ByteSeq)
    ensures OnRequestLine(p, line).stop == Go <==> exists m, t, v :: RequestLineIs(line, m, t, v)
  {
    hide OnRequestLine, RequestLineIs;
    if OnRequestLine(p, line).stop == Go {
      RequestLineFound(p, line);
    } else if m, t, v :| RequestLineIs(line, m, t, v) {
      RequestLineReads(p, line, m, t, v);
    }
  }

  // ----- Status lines

  lemma DigitsHaveNoSpace(s: ByteSeq)
    ensures ParseNumber(s, 10).Some? ==> SP !in s && s != []
  {
    hide NumberValue;
    if ParseNumber(s, 10).Some? {
      forall i | 0 <= i < |s| ensures s[i] != SP {
        assert IsDigit(s[i], 10);
      }
    }
  }

  lemma StatusLineReads(p: Parser, line: ByteSeq, v: Version, digits: ByteSeq, status: nat, reason: ByteSeq)
    requires StatusLineIs(line, v, digits, status, reason) && p.head.reason == []
    ensures OnStatusLine(p, line)
            == Turn(p.(head := p.head.(version := v, status := status, reason := reason), state := Headers), [], Go)
  {
    hide FindByte, ParseVersion, ParseNumber, Spelled;
    DigitsHaveNoSpace(digits);
    VersionsDiffer(Spelled(v));
    var sv := Spelled(v);
    if line == sv + [SP] + digits + [SP] + reason {
      var tail := digits + [SP] + reason;
      assert line == sv + [SP] + tail;
      SplitOnce(sv, tail, SP);
      SplitOnce(digits, reason, SP);
      FindFrom(line, |sv| + 1, SP);
      var sp2 := |sv| + 1 + |digits|;
      assert line[|sv| + 1..sp2] == tail[..|digits|] && line[sp2 + 1..] == tail[|digits| + 1..];
    } else {
      SplitOnce(sv, digits, SP);
      FindFrom(line, |sv| + 1, SP);
      NotThere(digits, SP);
      assert line[|sv| + 1..] == digits == line[|sv| + 1..|line|];
    }
  }

  lemma NotThere(s: ByteSeq, c: Byte)
    requires c !in s
    ensures FindByte(s, 0, c).None?
  {
  }

  lemma CutTwice(line: ByteSeq, i: nat, j: nat)
    requires i < j < |line| && line[i] == SP && line[j] == SP
    ensures line == line[..i] + [SP] + line[i + 1..j] + [SP] + line[j + 1..]
  {
  }

  lemma StatusLineShape(p: Parser, line: ByteSeq)
    requires OnStatusLine(p, line).stop == Go
    ensures var q := OnStatusLine(p, line).p;
            && FindByte(line, 0, SP).Some? && 100 <= q.head.status <= 999 && q.head.version != UnknownVersion
            && var sp1 := FindByte(line, 0, SP).value;
               var sp2 := FindByte(line, sp1 + 1, SP);
               && q.head.version == ParseVersion(line[..sp1])
               && q.head.reason == (if sp2.Some? then line[sp2.value + 1..] else p.head.reason)
               && ParseNumber(line[sp1 + 1..if sp2.Some? then sp2.value else |line|], 10) == Some(q.head.status)
               && q == p.(head := p.head.(version := q.head.version, status := q.head.status,
                                          reason := q.head.reason), state := Headers)
  {
    hide ParseVersion, ParseNumber, FindByte;
  }

  lemma StatusLineFound(p: Parser, line: ByteSeq) returns (digits: ByteSeq)
    requires OnStatusLine(p, line).stop == Go && p.head.reason == []
    ensures var q := OnStatusLine(p, line).p;
            && StatusLineIs(line, q.head.version, digits, q.head.status, q.head.reason)
            && q == p.(head := p.head.(version := q.head.version, status := q.head.status, reason := q.head.reason),
                       state := Headers)
  {
    hide ParseVersion, ParseNumber, Spelled, FindByte, OnStatusLine;
    StatusLineShape(p, line);
    var sp1 := FindByte(line, 0, SP).value;
    var sp2 := FindByte(line, sp1 + 1, SP);
    VersionsDiffer(line[..sp1]);
    digits := line[sp1 + 1..if sp2.Some? then sp2.value else |line|];
    if sp2.Some? {
      CutTwice(line, sp1, sp2.value);
    } else {
      assert line == line[..sp1] + [SP] + digits;
    }
  }

  ghost predicate IsStatusLine(line: ByteSeq) {
    exists v, digits, status: nat, reason :: StatusLineIs(line, v, digits, status, reason)
  }

  lemma StatusLineExactly(p: Parser, line: ByteSeq)
    requires p.head.reason == []
    ensures OnStatusLine(p, line).stop == Go <==> IsStatusLine(line)
  {
    hide OnStatusLine, StatusLineIs;
    if OnStatusLine(p, line).stop == Go {
      var digits := StatusLineFound(p, line);
    } else if v, digits, status: nat, reason :| StatusLineIs(line, v, digits, status, reason) {
      StatusLineReads(p, line, v, digits, status, reason);
    }
  }

  // ----- Field lines

  /** The field of a line, if it is one. */
  function FieldOf(line: ByteSeq): Option<Header> {
    var i := FindByte(line, 0, COLON);
    if i.Some? && IsToken(line[..i.value]) then Some(Header(line[..i.value], Trim(line[i.value + 1..]))) else None
  }

  lemma FieldExactly(line: ByteSeq, h: Header)
    ensures FieldOf(line) == Some(h) <==> IsField(line, h)
  {
    hide IsToken, Trim, FindByte;
    var i := FindByte(line, 0, COLON);
    if FieldOf(line) == Some(h) {
      assert line == h.name + [COLON] + line[i.value + 1..];
      assert FieldIs(line, line[i.value + 1..], h);
    } else if val :| FieldIs(line, val, h) {
      TokenHasNoSpace(h.name);
      SplitOnce(h.name, val, COLON);
    }
  }

  lemma FieldTurns(c: Config, p: Parser, line: ByteSeq)
    requires line != []
    ensures var u := OnHeaderLine(c, p, line);
            if FieldOf(line).None? then u == Fail(p, BadMessage)
            else if p.head.headerCount >= c.lim.maxHeaderCount then
              u == Fail(p.(head := p.head.(headerCount := p.head.headerCount + 1)), TooLarge)
            else
              u == Turn(p.(head := p.head.(headerCount := p.head.headerCount + 1,
                                           headers := p.head.headers + [FieldOf(line).value])), [], Go)
  {
    hide FindByte, Trim, FinishHead, IsToken;
    if IsOWS(line[0]) {
      OpensWithSpace(line);
    }
  }

  /** A line that opens with white space has no name before its colon. */
  lemma OpensWithSpace(line: ByteSeq)
    requires line != [] && IsOWS(line[0])
    ensures FieldOf(line).None?
  {
    hide Trim;
    var i := FindByte(line, 0, COLON);
    if i.Some? {
      assert i.value > 0 ==> line[..i.value][0] == line[0];
    }
  }

  // ----- What the fields decide

  predicate Named(hs: seq<Header>, name: string) {
    exists i :: 0 <= i < |hs| && Eqi(hs[i].name, Ascii(name))
  }

  /** Every Content-Length says `n`. */
  predicate AllSay(hs: seq<Header>, n: nat) {
    forall i :: 0 <= i < |hs| && Eqi(hs[i].name, Ascii("Content-Length")) ==> Decimal(hs[i].value, n)
  }

  /** One of the items between the commas of `s` is `item`, white space around it aside. */
  predicate ListedAt(s: ByteSeq, i: nat, j: nat, item: ByteSeq) {
    && i <= j <= |s| && (forall k :: i <= k < j ==> s[k] != COMMA) && Eqi(Trim(s[i..j]), item)
    && (i > 0 ==> s[i - 1] == COMMA) && (j < |s| ==> s[j] == COMMA)
  }

  ghost predicate Listed(s: ByteSeq, item: ByteSeq) { exists i: nat, j: nat :: ListedAt(s, i, j, item) }

  ghost predicate Chunked(hs: seq<Header>) {
    exists k :: 0 <= k < |hs| && Eqi(hs[k].name, Ascii("Transfer-Encoding")) && Listed(hs[k].value, Ascii("chunked"))
  }

  predicate IsInterim(c: Config, h: HeadInfo) { !c.isRequest && h.status < 200 }

  /** A head whose fields leave the body's length in doubt, or give one to a response that has no body. */
  ghost predicate Doubtful(c: Config, h: HeadInfo) {
    var te, cl := Named(h.headers, "Transfer-Encoding"), Named(h.headers, "Content-Length");
    if IsInterim(c, h) then te || cl
    else (te && (cl || h.version == Http10 || !Chunked(h.headers))) || (cl && !exists n: nat :: AllSay(h.headers, n))
  }

  /** No body, whatever the fields say. */
  predicate Bodiless(c: Config, h: HeadInfo) {
    if c.isRequest then !Named(h.headers, "Transfer-Encoding") && !Named(h.headers, "Content-Length")
    else c.toHead || h.status == 204 || h.status == 304
  }

  /** What the caller is told of a head that is not an interim one. */
  predicate FramedAs(c: Config, q: Parser, total: Option<nat>) {
    var te, cl, none := Named(q.head.headers, "Transfer-Encoding"), Named(q.head.headers, "Content-Length"),
                        Bodiless(c, q.head);
    && q.framing == Framing(none, te, cl, !none && !te && !cl)
    && (cl ==> AllSay(q.head.headers, q.length))
    && total == (if none then Some(0) else if cl then Some(q.length) else None)
    && q.state == (if none then Done else if te then ChunkSize else if !cl then BodyClose
                   else if q.length > 0 then BodyLength else Done)
  }

  // ----- The lists behind the lookups

  lemma {:induction false} ValuesAre(hs: seq<Header>, name: ByteSeq)
    ensures forall v :: v in ValuesOf(hs, name) <==>
                        exists i :: 0 <= i < |hs| && Eqi(hs[i].name, name) && hs[i].value == v
  {
    hide Eqi;
    if hs != [] {
      ValuesAre(hs[1..], name);
      forall v
        ensures v in ValuesOf(hs, name) <==> exists i :: 0 <= i < |hs| && Eqi(hs[i].name, name) && hs[i].value == v
      {
        if i :| 0 <= i < |hs| && Eqi(hs[i].name, name) && hs[i].value == v {
          if i > 0 {
            assert hs[1..][i - 1] == hs[i];
          }
        }
        if i :| 0 <= i < |hs[1..]| && Eqi(hs[1..][i].name, name) && hs[1..][i].value == v {
          assert hs[i + 1] == hs[1..][i];
        }
      }
    }
  }

  lemma AgreedExactly(hs: seq<Header>)
    requires Named(hs, "Content-Length")
    ensures var r := AgreedLength(ValuesOf(hs, Ascii("Content-Length")));
            && (r.Some? ==> AllSay(hs, r.value))
            && (forall n: nat :: AllSay(hs, n) ==> r == Some(n))
  {
    hide Eqi, ParseNumber, ValuesOf;
    var name := Ascii("Content-Length");
    var vs := ValuesOf(hs, name);
    ValuesAre(hs, name);
    var k :| 0 <= k < |hs| && Eqi(hs[k].name, name);
    assert hs[k].value in vs;
    var r := AgreedLength(vs);
    if r.Some? {
      forall i | 0 <= i < |hs| && Eqi(hs[i].name, name) ensures Decimal(hs[i].value, r.value) {
        assert hs[i].value in vs;
      }
    }
    forall n: nat | AllSay(hs, n) ensures r == Some(n) {
      forall i | 0 <= i < |vs| ensures ParseNumber(vs[i], 10) == Some(n) {
        assert vs[i] in vs;
      }
    }
  }

  predicate PieceAt(s: ByteSeq, i: nat, j: nat, t: ByteSeq) {
    && i <= j <= |s| && (forall k :: i <= k < j ==> s[k] != COMMA) && t == s[i..j]
    && (i > 0 ==> s[i - 1] == COMMA) && (j < |s| ==> s[j] == COMMA)
  }

  lemma PieceShifts(s: ByteSeq, d: nat, i: nat, j: nat, t: ByteSeq)
    requires 0 < d <= |s| && s[d - 1] == COMMA && PieceAt(s[d..], i, j, t)
    ensures PieceAt(s, d + i, d + j, t)
  {
    var u := s[d..];
    assert s[d + i..d + j] == u[i..j];
    forall k | d + i <= k < d + j ensures s[k] != COMMA {
      assert u[k - d] == s[k];
    }
  }

  lemma FirstPiece(s: ByteSeq, j: nat)
    requires j <= |s| && (forall k :: 0 <= k < j ==> s[k] != COMMA) && (j < |s| ==> s[j] == COMMA)
    ensures PieceAt(s, 0, j, s[..j])
  {
  }

  /** Every piece lies between commas. */
  lemma {:induction false} PieceFound(s: ByteSeq, t: ByteSeq) returns (i: nat, j: nat)
    requires t in SplitCommas(s)
    ensures PieceAt(s, i, j, t)
    decreases |s|
  {
    hide FindByte, PieceAt;
    var c := FindByte(s, 0, COMMA);
    if c.None? || t == s[..c.value] {
      i, j := 0, if c.None? then |s| else c.value;
      FirstPiece(s, j);
      assert s[..|s|] == s;
    } else {
      i, j := PieceFound(s[c.value + 1..], t);
      PieceShifts(s, c.value + 1, i, j, t);
      i, j := c.value + 1 + i, c.value + 1 + j;
    }
  }

  /** And all that lies between commas is a piece. */
  lemma {:induction false} PieceStands(s: ByteSeq, i: nat, j: nat, t: ByteSeq)
    requires PieceAt(s, i, j, t)
    ensures t in SplitCommas(s)
    decreases |s|
  {
    hide FindByte;
    var c := FindByte(s, 0, COMMA);
    if c.None? {
      assert s[i..j] == s;
    } else if i > c.value {
      var u, d := s[c.value + 1..], c.value + 1;
      assert u[i - d..j - d] == s[i..j];
      PieceStands(u, i - d, j - d, t);
    }
  }

  lemma CodingExactly(hs: seq<Header>)
    ensures HasToken(hs, Ascii("Transfer-Encoding"), Ascii("chunked")) <==> Chunked(hs)
  {
    hide Eqi, Trim, ValuesOf, SplitCommas;
    var name, item := Ascii("Transfer-Encoding"), Ascii("chunked");
    ValuesAre(hs, name);
    if v, t :| v in ValuesOf(hs, name) && t in SplitCommas(v) && Eqi(Trim(t), item) {
      var i, j := PieceFound(v, t);
      assert ListedAt(v, i, j, item);
    }
    if k :| 0 <= k < |hs| && Eqi(hs[k].name, name) && Listed(hs[k].value, item) {
      var v := hs[k].value;
      var i: nat, j: nat :| ListedAt(v, i, j, item);
      PieceStands(v, i, j, v[i..j]);
      assert v in ValuesOf(hs, name);
    }
  }

  // ----- The end of the head

  /** What the blank line makes of the head before it. */
  ghost predicate Finishes(c: Config, p: Parser, u: Turn) {
    if Doubtful(c, p.head) then u.stop == Refused(false) && u.out == [] && u.p.state == Failed && u.p.err == BadMessage
    else if IsInterim(c, p.head) && p.interim >= c.lim.maxInterim then
      u.stop == Refused(false) && u.out == [] && u.p.state == Failed && u.p.err == TooLarge
    else
      && u.stop == Go && u.p.head == p.head && u.p.headBytes == p.headBytes && u.p.headDone
      && (if IsInterim(c, p.head) then
            u.out == [InterimHead(u.p)] && u.p.state == Interim && u.p.interim == p.interim + 1
          else
            |u.out| == 1 && u.out[0].Head? && u.out[0].p == u.p && FramedAs(c, u.p, u.out[0].total))
  }

  lemma FinishExactly(c: Config, p: Parser)
    requires p.framing == INIT.framing
    ensures Finishes(c, p, FinishHead(c, p))
  {
    hide Eqi, HasToken, AgreedLength, ValuesOf, Chunked;
    CodingExactly(p.head.headers);
    if Named(p.head.headers, "Content-Length") {
      AgreedExactly(p.head.headers);
    }
  }

  // ----- Reading a line of a head

  lemma {:induction false} ScanTo(w: ByteSeq, l: Line, i: nat)
    requires i <= |l.text| && PlainText(l.text) && Raw(l) <= w
    ensures Scan(w, true, i) == Ends(|l.text|, |Raw(l)|)
    decreases |l.text| - i
  {
    var n := |l.text|;
    assert forall k :: 0 <= k < n ==> w[k] == l.text[k];
    assert w[n] == Raw(l)[n];
    if i < n {
      ScanTo(w, l, i + 1);
    } else if l.crlf {
      assert w[n + 1] == Raw(l)[n + 1] == LF;
      assert Scan(w, true, n + 1) == Ends(n, n + 2);
    }
  }

  lemma LineIsRead(l: Line, more: ByteSeq, limit: nat)
    requires Readable(l, limit)
    ensures ReadLine(Raw(l) + more, limit, true) == Got(l.text, |Raw(l)|)
  {
    hide Scan;
    var src := Raw(l) + more;
    var w := Window(src, limit);
    assert Raw(l) <= w;
    ScanTo(w, l, 0);
    assert w[..|l.text|] == l.text;
  }

  predicate Over(c: Config, p: Parser) { p.headBytes > c.lim.maxHeadBytes }

  function Counted(p: Parser, l: Line): Parser { p.(headBytes := (p.headBytes + |Raw(l)|) % U32) }

  lemma LineSteps(c: Config, p: Parser, l: Line, more: ByteSeq)
    requires InHead(p.state) && Readable(l, c.lim.maxLineLen) && !Over(c, p)
    ensures var a, u := Step(c, p, Raw(l) + more), OnLine(c, Counted(p, l), l.text);
            a.p == u.p && a.rest == more && a.out == u.out && a.stop == u.stop
  {
    hide OnLine, ReadLine, AtEdge, Raw;
    LineIsRead(l, more, c.lim.maxLineLen);
    assert (Raw(l) + more)[|Raw(l)|..] == more;
  }

  /** A run refused with nothing told. */
  predicate Refuses(d: Run, err: Error) {
    d.stop == Refused(false) && d.events == [] && d.p.state == Failed && d.p.err == err
  }

  /** Two runs that differ at most in whether some line was decided by its last byte. */
  ghost predicate Alike(d: Run, out: seq<Event>, e: Run) {
    d.p == e.p && d.rest == e.rest && d.stop == e.stop && d.events == out + e.events
  }

  lemma OverRefuses(c: Config, p: Parser, src: ByteSeq)
    requires InHead(p.state) && Over(c, p)
    ensures Refuses(Drive(c, p, src), TooLarge)
  {
    hide ReadLine, OnLine, AtEdge;
    Unfold(c, p, src);
  }

  lemma LineDrives(c: Config, p: Parser, l: Line, more: ByteSeq)
    requires InHead(p.state) && Readable(l, c.lim.maxLineLen) && !Over(c, p)
    ensures var d, u := Drive(c, p, Raw(l) + more), OnLine(c, Counted(p, l), l.text);
            && (u.stop == Go ==> Alike(d, u.out, Drive(c, u.p, more)))
            && (u.stop != Go ==> d.p == u.p && d.stop == u.stop && d.events == u.out)
  {
    hide Step, Drive, OnLine, Raw;
    LineSteps(c, p, l, more);
    Unfold(c, p, Raw(l) + more);
  }

  // ----- The whole head

  /** A parser about to read a head: whatever heads came before it have left nothing but counts. */
  predicate Fresh(p: Parser) { p == INIT.(headBytes := p.headBytes, interim := p.interim) && p.headBytes < U32 }

  /** The bytes counted when `k` lines of the block have been read, in 32 bits. */
  function Used(p: Parser, b: Block, k: nat): nat
    requires k <= |LinesOf(b)|
  {
    (p.headBytes + |RawAll(LinesOf(b)[..k])|) % U32
  }

  ghost predicate StartOk(c: Config, text: ByteSeq) {
    if c.isRequest then exists m, t, v :: RequestLineIs(text, m, t, v) else IsStatusLine(text)
  }

  ghost predicate FieldOk(text: ByteSeq) { exists h :: IsField(text, h) }

  /** The head a start line and fields make. */
  ghost predicate Makes(c: Config, b: Block, h: HeadInfo) {
    && StartIs(c, b.start.text, h) && h.headerCount == |h.headers| == |b.fields|
    && forall i :: 0 <= i < |b.fields| ==> IsField(b.fields[i].text, h.headers[i])
  }

  /** What is wrong with line `k`, those before it being right. */
  ghost function Fault(c: Config, p: Parser, b: Block, k: nat): Option<Error>
    requires k < |LinesOf(b)|
  {
    var n := |b.blanks|;
    if Used(p, b, k) > c.lim.maxHeadBytes then Some(TooLarge)
    else if k < n then None
    else if k == n then (if StartOk(c, b.start.text) then None else Some(BadMessage))
    else if k <= n + |b.fields| then
      if !FieldOk(b.fields[k - n - 1].text) then Some(BadMessage)
      else if k - n > c.lim.maxHeaderCount then Some(TooLarge)
      else None
    else if exists h :: Makes(c, b, h) && Doubtful(c, h) then Some(BadMessage)
    else if (exists h :: Makes(c, b, h) && IsInterim(c, h)) && p.interim >= c.lim.maxInterim then Some(TooLarge)
    else None
  }

  /** What the caller is told of the head. */
  ghost predicate Told(c: Config, p: Parser, b: Block, e: Event) {
    && (e.InterimHead? || e.Head?) && Makes(c, b, e.p.head)
    && (e.InterimHead? <==> IsInterim(c, e.p.head))
    && (e.InterimHead? ==> e.p.state == Interim && e.p.interim == p.interim + 1)
    && (e.Head? ==> FramedAs(c, e.p, e.total))
    && e.p.headBytes == Used(p, b, |LinesOf(b)|)
  }

  // ----- Where the parser stands

  function Started(c: Config, text: ByteSeq): HeadInfo {
    if c.isRequest then OnRequestLine(INIT, text).p.head else OnStatusLine(INIT, text).p.head
  }

  function FieldsUpTo(fields: seq<Line>, m: nat): (hs: seq<Header>)
    requires m <= |fields|
    ensures |hs| == m
  {
    seq(m, i requires 0 <= i < m =>
      if FieldOf(fields[i].text).Some? then FieldOf(fields[i].text).value else Header([], []))
  }

  function HeadAt(c: Config, b: Block, m: nat): HeadInfo
    requires m <= |b.fields|
  {
    Started(c, b.start.text).(headers := FieldsUpTo(b.fields, m), headerCount := m)
  }

  /** The parser with the first `k` lines read, all of them right. */
  function StateAt(c: Config, p: Parser, b: Block, k: nat): Parser
    requires k < |LinesOf(b)|
  {
    var n := |b.blanks|;
    if k <= n then p.(headBytes := Used(p, b, k))
    else p.(state := Headers, headBytes := Used(p, b, k), head := HeadAt(c, b, k - n - 1))
  }

  lemma {:induction false} RawSplits(a: seq<Line>, z: seq<Line>)
    ensures RawAll(a + z) == RawAll(a) + RawAll(z)
    decreases |a|
  {
    hide Raw;
    if a == [] {
      assert a + z == z;
    } else {
      assert (a + z)[1..] == a[1..] + z;
      RawSplits(a[1..], z);
      var x, y, w := Raw(a[0]), RawAll(a[1..]), RawAll(z);
      assert x + (y + w) == x + y + w;
    }
  }

  lemma RawOne(l: Line)
    ensures RawAll([l]) == Raw(l)
  {
    assert [l][1..] == [];
  }

  lemma UsedNext(p: Parser, b: Block, k: nat)
    requires k < |LinesOf(b)|
    ensures Used(p, b, k + 1) == (Used(p, b, k) + |Raw(LinesOf(b)[k])|) % U32
  {
    hide Raw, RawAll, LinesOf;
    var ls := LinesOf(b);
    assert ls[..k + 1] == ls[..k] + [ls[k]];
    RawSplits(ls[..k], [ls[k]]);
    RawOne(ls[k]);
  }

  lemma UsedFirst(p: Parser, b: Block)
    requires Fresh(p)
    ensures Used(p, b, 0) == p.headBytes
  {
    assert LinesOf(b)[..0] == [];
  }

  lemma LineAt(b: Block, k: nat)
    requires k < |LinesOf(b)|
    ensures var n, l := |b.blanks|, LinesOf(b)[k];
            && (k < n ==> l == b.blanks[k]) && (k == n ==> l == b.start)
            && (n < k <= n + |b.fields| ==> l == b.fields[k - n - 1]) && (k == n + |b.fields| + 1 ==> l == b.end)
  {
  }

  /** Start lines read alike whatever has been counted. */
  lemma StartTurns(c: Config, p: Parser, text: ByteSeq, u: Turn)
    requires Fresh(p) && u == if c.isRequest then OnRequestLine(p, text) else OnStatusLine(p, text)
    ensures Decided(u) && (u.stop == Go <==> StartOk(c, text))
    ensures u.stop == Go ==>
              && u.p == p.(state := Headers, head := Started(c, text))
              && Started(c, text) == Started(c, text).(headers := [], headerCount := 0)
  {
    hide OnRequestLine, OnStatusLine, RequestLineIs, StatusLineIs;
    StartDecided(p, text);
    if c.isRequest {
      RequestLineExactly(p, text);
      if u.stop == Go {
        RequestLineFound(p, text);
        var h := u.p.head;
        RequestLineReads(INIT, text, h.methodName, h.target, h.version);
      }
    } else {
      StatusLineExactly(p, text);
      if u.stop == Go {
        var digits := StatusLineFound(p, text);
        var h := u.p.head;
        StatusLineReads(INIT, text, h.version, digits, h.status, h.reason);
      }
    }
  }

  lemma FieldOkIs(text: ByteSeq)
    ensures FieldOk(text) <==> FieldOf(text).Some?
  {
    hide FieldOf, IsField;
    if FieldOf(text).Some? {
      FieldExactly(text, FieldOf(text).value);
    }
    if h :| IsField(text, h) {
      FieldExactly(text, h);
    }
  }

  /** What line `k` makes of the parser, unless it is the last. */
  lemma LineTurns(c: Config, p: Parser, b: Block, k: nat)
    requires Fresh(p) && Formed(c, b) && k < |LinesOf(b)| - 1 && Used(p, b, k) <= c.lim.maxHeadBytes
    ensures var u := OnLine(c, Counted(StateAt(c, p, b, k), LinesOf(b)[k]), LinesOf(b)[k].text);
            if Fault(c, p, b, k).None? then u == Turn(StateAt(c, p, b, k + 1), [], Go)
            else u.stop == Refused(false) && u.out == [] && u.p.state == Failed && u.p.err == Fault(c, p, b, k).value
  {
    hide OnRequestLine, OnStatusLine, OnHeaderLine, FieldOf, Raw, Used, LinesOf, Doubtful, StartOk, FieldOk;
    LineAt(b, k);
    UsedNext(p, b, k);
    var n, l := |b.blanks|, LinesOf(b)[k];
    var q := Counted(StateAt(c, p, b, k), l);
    if k == n {
      StartTurns(c, q, l.text, OnLine(c, q, l.text));
      NoFieldsYet(b.fields);
    } else if k > n {
      FieldOkIs(l.text);
      FieldTurns(c, q, l.text);
      OneMoreField(b.fields, k - n - 1);
    }
  }

  lemma NoFieldsYet(fields: seq<Line>)
    ensures FieldsUpTo(fields, 0) == []
  {
  }

  lemma OneMoreField(fields: seq<Line>, m: nat)
    requires m < |fields|
    ensures FieldOf(fields[m].text).Some? ==>
              FieldsUpTo(fields, m + 1) == FieldsUpTo(fields, m) + [FieldOf(fields[m].text).value]
  {
    hide FieldOf;
  }

  // ----- The head that is made

  lemma StartIsOne(c: Config, text: ByteSeq, h: HeadInfo)
    requires StartIs(c, text, h)
    ensures h == Started(c, text).(headers := h.headers, headerCount := h.headerCount)
  {
    hide OnRequestLine, OnStatusLine, RequestLineIs, StatusLineIs;
    if c.isRequest {
      RequestLineReads(INIT, text, h.methodName, h.target, h.version);
    } else {
      var digits :| StatusLineIs(text, h.version, digits, h.status, h.reason);
      StatusLineReads(INIT, text, h.version, digits, h.status, h.reason);
    }
  }

  lemma StartIsSome(c: Config, text: ByteSeq, hs: seq<Header>)
    requires StartOk(c, text)
    ensures StartIs(c, text, Started(c, text).(headers := hs, headerCount := |hs|))
  {
    hide OnRequestLine, OnStatusLine, RequestLineIs, StatusLineIs;
    if c.isRequest {
      RequestLineExactly(INIT, text);
      RequestLineFound(INIT, text);
    } else {
      StatusLineExactly(INIT, text);
      var digits := StatusLineFound(INIT, text);
    }
  }

  lemma MadeIs(c: Config, b: Block)
    requires StartOk(c, b.start.text) && forall i :: 0 <= i < |b.fields| ==> FieldOk(b.fields[i].text)
    ensures forall h :: Makes(c, b, h) <==> h == HeadAt(c, b, |b.fields|)
  {
    hide FieldOf, IsField, FieldOk, StartOk, StartIs, Started;
    var hs := FieldsUpTo(b.fields, |b.fields|);
    StartIsSome(c, b.start.text, hs);
    forall i | 0 <= i < |b.fields| ensures forall h :: IsField(b.fields[i].text, h) <==> h == hs[i] {
      var text := b.fields[i].text;
      FieldOkIs(text);
      forall h ensures IsField(text, h) <==> h == hs[i] {
        FieldExactly(text, h);
      }
    }
    forall h | Makes(c, b, h) ensures h == HeadAt(c, b, |b.fields|) {
      StartIsOne(c, b.start.text, h);
      assert h.headers == hs;
    }
  }

  /** What the blank line makes of the parser. */
  lemma EndTurns(c: Config, p: Parser, b: Block)
    requires Fresh(p) && Formed(c, b)
    requires forall j :: 0 <= j < |LinesOf(b)| - 1 ==> Fault(c, p, b, j).None?
    requires Used(p, b, |LinesOf(b)| - 1) <= c.lim.maxHeadBytes
    ensures var k := |LinesOf(b)| - 1;
            var u := OnLine(c, Counted(StateAt(c, p, b, k), LinesOf(b)[k]), LinesOf(b)[k].text);
            if Fault(c, p, b, k).None? then u.stop == Go && |u.out| == 1 && u.out[0].p == u.p && Told(c, p, b, u.out[0])
            else u.stop == Refused(false) && u.out == [] && u.p.state == Failed && u.p.err == Fault(c, p, b, k).value
  {
    hide FinishHead, Raw, Used, LinesOf, Doubtful, FramedAs, Makes, StartOk, FieldOk;
    var k := |LinesOf(b)| - 1;
    LineAt(b, k);
    UsedNext(p, b, k);
    AllRight(c, p, b);
    MadeIs(c, b);
    var q := Counted(StateAt(c, p, b, k), b.end);
    FinishExactly(c, q);
  }

  lemma AllRight(c: Config, p: Parser, b: Block)
    requires forall j :: 0 <= j < |LinesOf(b)| - 1 ==> Fault(c, p, b, j).None?
    ensures StartOk(c, b.start.text) && forall i :: 0 <= i < |b.fields| ==> FieldOk(b.fields[i].text)
  {
    hide Used, StartOk, FieldOk;
    var n := |b.blanks|;
    assert Fault(c, p, b, n).None?;
    forall i | 0 <= i < |b.fields| ensures FieldOk(b.fields[i].text) {
      assert Fault(c, p, b, n + 1 + i).None?;
    }
  }

  // ----- Every line

  function Left(b: Block, k: nat, rest: ByteSeq): ByteSeq
    requires k <= |LinesOf(b)|
  {
    RawAll(LinesOf(b)[k..]) + rest
  }

  lemma LeftSplits(b: Block, k: nat, rest: ByteSeq)
    requires k < |LinesOf(b)|
    ensures Left(b, k, rest) == Raw(LinesOf(b)[k]) + Left(b, k + 1, rest)
  {
    hide Raw, LinesOf;
    var ls := LinesOf(b);
    assert ls[k..][1..] == ls[k + 1..];
  }

  lemma LeftOver(b: Block, rest: ByteSeq)
    ensures Left(b, |LinesOf(b)|, rest) == rest && Left(b, 0, rest) == RawAll(LinesOf(b)) + rest
  {
    hide LinesOf;
    var ls := LinesOf(b);
    assert ls[|ls|..] == [] && ls[0..] == ls;
  }

  lemma FaultRefuses(c: Config, p: Parser, b: Block, k: nat, rest: ByteSeq)
    requires Fresh(p) && Formed(c, b) && k < |LinesOf(b)| && Fault(c, p, b, k).Some?
    requires forall j :: 0 <= j < k ==> Fault(c, p, b, j).None?
    ensures Refuses(Drive(c, StateAt(c, p, b, k), Left(b, k, rest)), Fault(c, p, b, k).value)
  {
    hide Drive, OnLine, Raw, Used, LinesOf, Doubtful, Makes, StartOk, FieldOk, HeadAt;
    var q := StateAt(c, p, b, k);
    if Over(c, q) {
      OverRefuses(c, q, Left(b, k, rest));
    } else {
      LeftSplits(b, k, rest);
      LineDrives(c, q, LinesOf(b)[k], Left(b, k + 1, rest));
      if k == |LinesOf(b)| - 1 {
        EndTurns(c, p, b);
      } else {
        LineTurns(c, p, b, k);
      }
    }
  }

  lemma GoesOn(c: Config, p: Parser, b: Block, k: nat, rest: ByteSeq)
    requires Fresh(p) && Formed(c, b) && k < |LinesOf(b)| - 1 && Fault(c, p, b, k).None?
    ensures Alike(Drive(c, StateAt(c, p, b, k), Left(b, k, rest)), [],
                  Drive(c, StateAt(c, p, b, k + 1), Left(b, k + 1, rest)))
  {
    hide Drive, OnLine, Raw, Used, LinesOf, Doubtful, Makes, StartOk, FieldOk, HeadAt;
    var q := StateAt(c, p, b, k);
    LeftSplits(b, k, rest);
    LineDrives(c, q, LinesOf(b)[k], Left(b, k + 1, rest));
    LineTurns(c, p, b, k);
  }

  lemma {:induction false} RefusedFrom(c: Config, p: Parser, b: Block, k: nat, m: nat, rest: ByteSeq)
    requires Fresh(p) && Formed(c, b) && k <= m < |LinesOf(b)| && Fault(c, p, b, m).Some?
    requires forall j :: 0 <= j < m ==> Fault(c, p, b, j).None?
    ensures Refuses(Drive(c, StateAt(c, p, b, k), Left(b, k, rest)), Fault(c, p, b, m).value)
    decreases m - k
  {
    hide Drive, LinesOf, StateAt, Left, Fault, Formed;
    if k == m {
      FaultRefuses(c, p, b, k, rest);
    } else {
      GoesOn(c, p, b, k, rest);
      RefusedFrom(c, p, b, k + 1, m, rest);
    }
  }

  lemma {:induction false} ToldFrom(c: Config, p: Parser, b: Block, k: nat, rest: ByteSeq) returns (e: Event)
    requires Fresh(p) && Formed(c, b) && k < |LinesOf(b)|
    requires forall j :: 0 <= j < |LinesOf(b)| ==> Fault(c, p, b, j).None?
    ensures Told(c, p, b, e)
    ensures Alike(Drive(c, StateAt(c, p, b, k), Left(b, k, rest)), [e], Drive(c, e.p, rest))
    decreases |LinesOf(b)| - k
  {
    hide Drive, LinesOf, StateAt, Left, Fault, Formed, Told;
    if k == |LinesOf(b)| - 1 {
      e := EndTold(c, p, b, rest);
    } else {
      GoesOn(c, p, b, k, rest);
      e := ToldFrom(c, p, b, k + 1, rest);
    }
  }

  lemma EndTold(c: Config, p: Parser, b: Block, rest: ByteSeq) returns (e: Event)
    requires Fresh(p) && Formed(c, b)
    requires forall j :: 0 <= j < |LinesOf(b)| ==> Fault(c, p, b, j).None?
    ensures Told(c, p, b, e)
    ensures var k := |LinesOf(b)| - 1;
            Alike(Drive(c, StateAt(c, p, b, k), Left(b, k, rest)), [e], Drive(c, e.p, rest))
  {
    hide Drive, OnLine, Raw, Used, LinesOf, Doubtful, Makes, StartOk, FieldOk, HeadAt, Left, Told;
    var k := |LinesOf(b)| - 1;
    LineAt(b, k);
    var q := StateAt(c, p, b, k);
    LeftSplits(b, k, rest);
    LeftOver(b, rest);
    assert Fault(c, p, b, k).None?;
    LineDrives(c, q, LinesOf(b)[k], Left(b, k + 1, rest));
    EndTurns(c, p, b);
    var u := OnLine(c, Counted(q, LinesOf(b)[k]), LinesOf(b)[k].text);
    e := u.out[0];
    assert u.out == [e];
  }

  /** Any lines that have the shape of a head, each ended by CR LF or LF and none too long, wherever one
      may begin. If no line is at fault the caller is told, before anything else, exactly what the lines
      say, how the body is delimited and how long it is, and reading goes on after the blank line. */
  lemma HeadExactly(c: Config, p: Parser, b: Block, rest: ByteSeq) returns (e: Event)
    requires Fresh(p) && Formed(c, b)
    requires forall j :: 0 <= j < |LinesOf(b)| ==> Fault(c, p, b, j).None?
    ensures Told(c, p, b, e)
    ensures Alike(Drive(c, p, RawAll(LinesOf(b)) + rest), [e], Drive(c, e.p, rest))
  {
    hide Drive, LinesOf, Fault, Formed, Told;
    e := ToldFrom(c, p, b, 0, rest);
    AtTheStart(c, p, b, rest);
  }

  /** Otherwise nothing is told, and the error is that of the first line at fault. */
  lemma HeadRefused(c: Config, p: Parser, b: Block, m: nat, rest: ByteSeq)
    requires Fresh(p) && Formed(c, b) && m < |LinesOf(b)| && Fault(c, p, b, m).Some?
    requires forall j :: 0 <= j < m ==> Fault(c, p, b, j).None?
    ensures Refuses(Drive(c, p, RawAll(LinesOf(b)) + rest), Fault(c, p, b, m).value)
  {
    hide Drive, LinesOf, Fault, Formed;
    RefusedFrom(c, p, b, 0, m, rest);
    AtTheStart(c, p, b, rest);
  }

  lemma AtTheStart(c: Config, p: Parser, b: Block, rest: ByteSeq)
    requires Fresh(p)
    ensures StateAt(c, p, b, 0) == p && Left(b, 0, rest) == RawAll(LinesOf(b)) + rest
  {
    LeftOver(b, rest);
    UsedFirst(p, b);
  }
}
