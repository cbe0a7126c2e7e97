/** What arrives of a multipart/form-data body: a receiver that reads it by the rules of section 5.1 of
    RFC 2046 and section 4 of RFC 7578, and when it finds the form that was sent. */
module HttpMultipart {
  import opened Bytes
  import opened HttpText
  import opened HttpForm

  const QUOTE: Byte := 34
  const BACKSLASH: Byte := 92

  // ----- What is sent

  /** A character of a quoted string: the two special ones are escaped, and line breaks left out. */
  function Escaped(c: Byte): ByteSeq {
    if c == QUOTE || c == BACKSLASH then [BACKSLASH, c] else if c == CR || c == LF then [] else [c]
  }

  function QuotedBody(s: ByteSeq): ByteSeq {
    if s == [] then [] else Escaped(s[0]) + QuotedBody(s[1..])
  }

  function Quoted(s: ByteSeq): ByteSeq { [QUOTE] + QuotedBody(s) + [QUOTE] }

  /** A field of a form: a file name or a content type that is empty is not sent. */
  datatype Entry = Entry(name: ByteSeq, filename: ByteSeq, ctype: ByteSeq, content: ByteSeq)

  const DISPOSITION: string := "Content-Disposition: form-data; name="
  const FILENAME: string := "; filename="
  const TYPE: string := "Content-Type: "

  /** The header lines of a part, without the line break after the last. */
  function Head(e: Entry): ByteSeq {
    Ascii(DISPOSITION) + Quoted(e.name) + FileNamePart(e.filename) + TypePart(e.ctype)
  }

  function FileNamePart(filename: ByteSeq): ByteSeq {
    if filename == [] then [] else Ascii(FILENAME) + Quoted(filename)
  }

  function TypePart(ctype: ByteSeq): ByteSeq {
    if ctype == [] then [] else CRLF + Ascii(TYPE) + ctype
  }

  /** All that comes before a part's content. */
  function PartHeader(boundary: ByteSeq, e: Entry): ByteSeq {
    [45, 45] + boundary + CRLF + Head(e) + CRLF + CRLF
  }

  lemma QuotedNext(r: ByteSeq, s: ByteSeq, i: nat)
    requires i < |s|
    ensures r + QuotedBody(s[i..]) == r + Escaped(s[i]) + QuotedBody(s[i + 1..])
  {
    hide Escaped;
    assert s[i..][1..] == s[i + 1..];
    var a, b := Escaped(s[i]), QuotedBody(s[i + 1..]);
    assert r + (a + b) == r + a + b;
  }

  /** Writes a quoted string, a character at a time. */
  method AppendQuoted(out: ByteSeq, s: ByteSeq) returns (r: ByteSeq)
    ensures r == out + Quoted(s)
  {
    hide QuotedBody;
    r := out + [QUOTE];
    assert s[0..] == s;
    ghost var body := QuotedBody(s);
    for i := 0 to |s|
      invariant r + QuotedBody(s[i..]) == out + [QUOTE] + QuotedBody(s)
    {
      QuotedNext(r, s, i);
      ghost var was := r;
      if s[i] == QUOTE || s[i] == BACKSLASH {
        r := r + [BACKSLASH];
      }
      if s[i] == CR || s[i] == LF {
        assert r == was + Escaped(s[i]);
        continue;
      }
      r := r + [s[i]];
      assert r == was + Escaped(s[i]);
    }
    assert s[|s|..] == [];
    NothingQuoted();
    assert r == out + [QUOTE] + body;
    r := r + [QUOTE];
    assert r == out + ([QUOTE] + body + [QUOTE]);
  }

  lemma NothingQuoted()
    ensures QuotedBody([]) == []
  {
  }

  /** Starts a part. */
  method AddPart(boundary: ByteSeq, name: ByteSeq, filename: ByteSeq, ctype: ByteSeq) returns (header: ByteSeq)
    ensures header == PartHeader(boundary, Entry(name, filename, ctype, []))
  {
    hide Ascii, Quoted, Head;
    ghost var first := [45, 45] + boundary + CRLF;
    header := [45, 45] + boundary + CRLF + Ascii(DISPOSITION);
    header := AppendQuoted(header, name);
    if filename != [] {
      header := header + Ascii(FILENAME);
      header := AppendQuoted(header, filename);
    }
    FirstLine(first, name, filename);
    header := header + CRLF;
    if ctype != [] {
      header := header + Ascii(TYPE);
      header := header + ctype;
      header := header + CRLF;
    }
    SecondLine(first, name, filename, ctype);
    header := header + CRLF;
  }

  function Line(name: ByteSeq, filename: ByteSeq): ByteSeq {
    Ascii(DISPOSITION) + Quoted(name) + FileNamePart(filename)
  }

  lemma FirstLine(first: ByteSeq, name: ByteSeq, filename: ByteSeq)
    ensures var h := first + Ascii(DISPOSITION) + Quoted(name);
            (if filename == [] then h else h + Ascii(FILENAME) + Quoted(filename)) == first + Line(name, filename)
  {
    hide Ascii, Quoted;
  }

  lemma SecondLine(first: ByteSeq, name: ByteSeq, filename: ByteSeq, ctype: ByteSeq)
    ensures var h := first + Line(name, filename) + CRLF;
            (if ctype == [] then h else h + Ascii(TYPE) + ctype + CRLF)
            == first + Head(Entry(name, filename, ctype, [])) + CRLF
  {
    hide Ascii, Quoted, FileNamePart;
    var l := Line(name, filename);
    assert Head(Entry(name, filename, ctype, [])) == l + TypePart(ctype);
    if ctype != [] {
      assert first + (l + (CRLF + Ascii(TYPE) + ctype)) + CRLF == first + l + CRLF + Ascii(TYPE) + ctype + CRLF;
    } else {
      assert l + [] == l;
    }
  }

  // ----- A receiver

  predicate Occurs(s: ByteSeq, pat: ByteSeq, k: nat) { k + |pat| <= |s| && s[k..k + |pat|] == pat }

  lemma OccursLater(s: ByteSeq, pat: ByteSeq, k: nat)
    requires 0 < k <= |s|
    ensures Occurs(s, pat, k) <==> Occurs(s[1..], pat, k - 1)
  {
    if k + |pat| <= |s| {
      assert s[k..k + |pat|] == s[1..][k - 1..k - 1 + |pat|];
    }
  }

  /** Where `pat` first occurs. */
  function Find(s: ByteSeq, pat: ByteSeq): (r: Option<nat>)
    ensures r.Some? ==> r.value + |pat| <= |s|
    decreases |s|
  {
    if Occurs(s, pat, 0) then Some(0)
    else if s == [] then None
    else
      var r := Find(s[1..], pat);
      if r.Some? then Some(r.value + 1) else None
  }

  lemma {:induction false} FindIs(s: ByteSeq, pat: ByteSeq)
    ensures var r := Find(s, pat);
            && (r.Some? ==> Occurs(s, pat, r.value))
            && (forall k :: 0 <= k < (if r.Some? then r.value else |s|) ==> !Occurs(s, pat, k))
    decreases |s|
  {
    hide Occurs;
    if !Occurs(s, pat, 0) && s != [] {
      FindIs(s[1..], pat);
      forall k: nat | 0 < k <= |s| ensures Occurs(s, pat, k) <==> Occurs(s[1..], pat, k - 1) {
        OccursLater(s, pat, k);
      }
    }
  }

  /** What stands between the parts: the line break before it belongs to it. */
  function Delimiter(boundary: ByteSeq): ByteSeq { CRLF + [45, 45] + boundary }

  datatype Piece = Piece(head: ByteSeq, content: ByteSeq)

  /** The parts of a body: each is the lines up to the first blank one and what follows up to the next
      delimiter. The last delimiter has two hyphens after it. */
  function ReadBody(s: ByteSeq, boundary: ByteSeq): Option<seq<Piece>>
    decreases |s|
  {
    var dash := [45, 45] + boundary;
    if s == dash + [45, 45] + CRLF then Some([])
    else if dash + CRLF <= s then ReadPart(s[|dash| + 2..], boundary)
    else None
  }

  /** A part, from its first line on, and those after it. */
  function ReadPart(t: ByteSeq, boundary: ByteSeq): Option<seq<Piece>>
    decreases |t|
  {
    var i := Find(t, CRLF + CRLF);
    if i.None? then None
    else
      var u := t[i.value + 4..];
      var j := Find(u, Delimiter(boundary));
      if j.None? then None
      else
        var more := ReadBody(u[j.value + 2..], boundary);
        if more.None? then None else Some([Piece(t[..i.value], u[..j.value])] + more.value)
  }

  // ----- It finds the parts

  lemma FindAt(s: ByteSeq, pat: ByteSeq, k: nat)
    requires pat != [] && Occurs(s, pat, k) && forall i :: 0 <= i < k ==> !Occurs(s, pat, i)
    ensures Find(s, pat) == Some(k)
  {
    hide Find;
    FindIs(s, pat);
    SomewhereIn(s, pat, k);
  }

  lemma SomewhereIn(s: ByteSeq, pat: ByteSeq, k: nat)
    requires Occurs(s, pat, k) && pat != []
    ensures k < |s|
  {
  }

  /** A delimiter begins with the only CR in it, so none overlaps another. */
  lemma DelimiterFound(a: ByteSeq, boundary: ByteSeq, rest: ByteSeq)
    requires CR !in boundary
    ensures var d := Delimiter(boundary);
            var r := Find(a + d + rest, d);
            r.Some? && r.value <= |a| && (r.value == |a| <==> !Contains(a, d))
  {
    hide Find, Occurs, Delimiter;
    var d := Delimiter(boundary);
    var s := a + d + rest;
    FindIs(s, d);
    OccursThere(a, d, rest);
    DelimiterIsLong(boundary);
    SomewhereIn(s, d, |a|);
    forall k: nat | k < |a| ensures Occurs(s, d, k) <==> Occurs(a, d, k) {
      NoOverlap(a, boundary, rest, k);
    }
  }

  lemma DelimiterIsLong(boundary: ByteSeq)
    ensures Delimiter(boundary) != []
  {
  }

  lemma OccursThere(a: ByteSeq, d: ByteSeq, rest: ByteSeq)
    ensures Occurs(a + d + rest, d, |a|)
  {
    assert (a + d + rest)[|a|..|a| + |d|] == d;
  }

  lemma NoOverlap(a: ByteSeq, boundary: ByteSeq, rest: ByteSeq, k: nat)
    requires CR !in boundary && k < |a|
    ensures var d := Delimiter(boundary); Occurs(a + d + rest, d, k) <==> Occurs(a, d, k)
  {
    var d := Delimiter(boundary);
    var s := a + d + rest;
    if k + |d| <= |a| {
      assert s[k..k + |d|] == a[k..k + |d|];
    } else {
      OneCR(boundary, |a| - k);
      assert s[|a|] == CR;
      assert k + |d| <= |s| ==> s[k..k + |d|][|a| - k] == s[|a|];
    }
  }

  lemma OneCR(boundary: ByteSeq, i: nat)
    requires CR !in boundary && 0 < i < |Delimiter(boundary)|
    ensures Delimiter(boundary)[i] != CR
  {
    if i >= 4 {
      assert Delimiter(boundary)[i] == boundary[i - 4];
    }
  }

  predicate Contains(s: ByteSeq, pat: ByteSeq) { exists k :: 0 <= k < |s| && Occurs(s, pat, k) }

  lemma {:induction false} QuotedHasNoCR(s: ByteSeq)
    ensures CR !in QuotedBody(s)
  {
    if s != [] {
      QuotedHasNoCR(s[1..]);
    }
  }

  predicate OnOneLine(s: string) { forall i :: 0 <= i < |s| ==> ' ' <= s[i] <= '~' }

  lemma AsciiOnOneLine(s: string)
    requires OnOneLine(s)
    ensures CR !in Ascii(s)
  {
  }

  /** The only CR in the line of a content type is the one it begins with. */
  lemma TypeBreaks(ctype: ByteSeq, i: nat)
    requires CR !in ctype && i < |TypePart(ctype)|
    ensures TypePart(ctype)[i] == CR <==> i == 0
  {
    hide Ascii;
    AsciiOnOneLine(TYPE);
    if i >= 2 + |TYPE| {
      assert TypePart(ctype)[i] == ctype[i - 2 - |TYPE|];
    } else if i >= 2 {
      assert TypePart(ctype)[i] == Ascii(TYPE)[i - 2];
    }
  }

  lemma LineBreaks(e: Entry)
    ensures CR !in Ascii(DISPOSITION) + Quoted(e.name) + FileNamePart(e.filename)
  {
    hide Ascii, QuotedBody;
    QuotedHasNoCR(e.name);
    QuotedHasNoCR(e.filename);
    AsciiOnOneLine(DISPOSITION);
    AsciiOnOneLine(FILENAME);
  }

  /** The only CR in a header is the one before its content type. */
  lemma HeadBreaks(e: Entry, k: nat)
    requires CR !in e.ctype && k < |Head(e)| && Head(e)[k] == CR
    ensures k + 2 < |Head(e)| && Head(e)[k + 2] != CR
  {
    hide Ascii, Quoted, FileNamePart, TypePart;
    var line, tail := Ascii(DISPOSITION) + Quoted(e.name) + FileNamePart(e.filename), TypePart(e.ctype);
    LineBreaks(e);
    assert Head(e) == line + tail;
    assert k >= |line|;
    TypeBreaks(e.ctype, k - |line|);
    TypeIsLong(e.ctype);
    TypeBreaks(e.ctype, 2);
  }

  lemma TypeIsLong(ctype: ByteSeq)
    ensures TypePart(ctype) != [] ==> |TypePart(ctype)| > 2
  {
  }

  lemma HeadEnds(e: Entry, more: ByteSeq)
    requires CR !in e.ctype
    ensures Find(Head(e) + (CRLF + CRLF) + more, CRLF + CRLF) == Some(|Head(e)|)
  {
    hide Head, Find;
    var h, d := Head(e), CRLF + CRLF;
    var s := h + d + more;
    assert s[|h|..|h| + 4] == d;
    forall k | 0 <= k < |h| ensures !Occurs(s, d, k) {
      if Occurs(s, d, k) {
        assert s[k..k + 4][0] == CR && s[k..k + 4][2] == CR;
        HeadBreaks(e, k);
      }
    }
    FindAt(s, d, |h|);
  }

  /** A part as it lies in a body. */
  function PartText(boundary: ByteSeq, e: Entry, rest: ByteSeq): ByteSeq {
    PartHeader(boundary, e) + e.content + CRLF + ([45, 45] + boundary + rest)
  }

  lemma PartIs(boundary: ByteSeq, e: Entry, rest: ByteSeq)
    ensures var dash := [45, 45] + boundary;
            PartText(boundary, e, rest)
            == dash + CRLF + (Head(e) + (CRLF + CRLF) + (e.content + Delimiter(boundary) + rest))
  {
    hide Head;
    var dash, h := [45, 45] + boundary, Head(e);
    assert Delimiter(boundary) == CRLF + dash;
    assert PartText(boundary, e, rest) == dash + CRLF + h + CRLF + CRLF + e.content + CRLF + (dash + rest);
    assert dash + CRLF + (h + (CRLF + CRLF) + (e.content + (CRLF + dash) + rest))
        == dash + CRLF + h + CRLF + CRLF + e.content + CRLF + (dash + rest);
  }

  lemma BodyOpens(boundary: ByteSeq, t: ByteSeq)
    ensures ReadBody([45, 45] + boundary + CRLF + t, boundary) == ReadPart(t, boundary)
  {
    hide ReadPart;
    var dash := [45, 45] + boundary;
    var s := dash + CRLF + t;
    assert s[|dash|] == CR && (dash + [45, 45] + CRLF)[|dash|] == 45;
    assert dash + CRLF <= s && s[|dash| + 2..] == t;
  }

  lemma PartOpens(boundary: ByteSeq, t: ByteSeq, i: nat)
    requires Find(t, CRLF + CRLF) == Some(i)
    ensures var u := t[i + 4..];
            var j := Find(u, Delimiter(boundary));
            ReadPart(t, boundary)
            == if j.None? then None
               else
                 var more := ReadBody(u[j.value + 2..], boundary);
                 if more.None? then None else Some([Piece(t[..i], u[..j.value])] + more.value)
  {
    hide Find, ReadBody, Delimiter;
  }

  lemma CutsAt(h: ByteSeq, body: ByteSeq)
    ensures var t := h + (CRLF + CRLF) + body;
            |h| + 4 <= |t| && t[|h| + 4..] == body && t[..|h|] == h
  {
  }

  /** One part read off the front, its header ending where the first blank line is. */
  lemma ReadsPart(boundary: ByteSeq, h: ByteSeq, body: ByteSeq)
    requires Find(h + (CRLF + CRLF) + body, CRLF + CRLF) == Some(|h|)
    ensures var s := [45, 45] + boundary + CRLF + (h + (CRLF + CRLF) + body);
            var j := Find(body, Delimiter(boundary));
            ReadBody(s, boundary)
            == if j.None? then None
               else
                 var more := ReadBody(body[j.value + 2..], boundary);
                 if more.None? then None else Some([Piece(h, body[..j.value])] + more.value)
  {
    hide Find, ReadBody, ReadPart, Delimiter;
    var t := h + (CRLF + CRLF) + body;
    BodyOpens(boundary, t);
    PartOpens(boundary, t, |h|);
    CutsAt(h, body);
  }

  /** One part, up to where the receiver sees its end. */
  lemma PartRead(boundary: ByteSeq, e: Entry, rest: ByteSeq)
    requires CR !in boundary && CR !in e.ctype
    ensures var r := ReadBody(PartText(boundary, e, rest), boundary);
            if Contains(e.content, Delimiter(boundary)) then
              r.Some? ==> r.value != [] && |r.value[0].content| < |e.content|
            else
              var more := ReadBody([45, 45] + boundary + rest, boundary);
              r == if more.None? then None else Some([Piece(Head(e), e.content)] + more.value)
  {
    hide Find, Head, Contains, ReadBody, PartText;
    var d := Delimiter(boundary);
    var body := e.content + d + rest;
    PartIs(boundary, e, rest);
    HeadEnds(e, body);
    ReadsPart(boundary, Head(e), body);
    DelimiterFound(e.content, boundary, rest);
    var j := Find(body, d).value;
    if j == |e.content| {
      assert body[j + 2..] == [45, 45] + boundary + rest && body[..j] == e.content;
    }
  }

  // ----- And what they say

  /** A quoted string after its opening quote, and what follows it. */
  function ReadQuoted(s: ByteSeq): Option<(ByteSeq, ByteSeq)> {
    if s == [] then None
    else if s[0] == QUOTE then Some(([], s[1..]))
    else if s[0] == BACKSLASH then
      if |s| < 2 then None
      else match ReadQuoted(s[2..]) case None => None case Some((x, r)) => Some(([s[1]] + x, r))
    else match ReadQuoted(s[1..]) case None => None case Some((x, r)) => Some(([s[0]] + x, r))
  }

  /** A string without its line breaks. */
  function OneLine(s: ByteSeq): ByteSeq {
    if s == [] then [] else (if s[0] == CR || s[0] == LF then [] else [s[0]]) + OneLine(s[1..])
  }

  lemma CharReads(c: Byte, u: ByteSeq, x: ByteSeq, rest: ByteSeq)
    requires ReadQuoted(u) == Some((x, rest))
    ensures ReadQuoted(Escaped(c) + u) == Some((if c == CR || c == LF then x else [c] + x, rest))
  {
    var t := Escaped(c) + u;
    if c == QUOTE || c == BACKSLASH {
      assert t[2..] == u;
    } else if c == CR || c == LF {
      assert t == u;
    } else {
      assert t[1..] == u;
    }
  }

  lemma {:induction false} QuotedReads(s: ByteSeq, rest: ByteSeq)
    ensures ReadQuoted(QuotedBody(s) + [QUOTE] + rest) == Some((OneLine(s), rest))
    decreases |s|
  {
    hide Escaped;
    var t := QuotedBody(s) + [QUOTE] + rest;
    if s == [] {
      assert t == [QUOTE] + rest && t[1..] == rest;
    } else {
      hide ReadQuoted;
      var u := QuotedBody(s[1..]) + [QUOTE] + rest;
      QuotedReads(s[1..], rest);
      CharReads(s[0], u, OneLine(s[1..]), rest);
      assert t == Escaped(s[0]) + u;
      assert [] + OneLine(s[1..]) == OneLine(s[1..]);
    }
  }

  /** `s` after `lit`, if it begins so. */
  function After(s: ByteSeq, lit: ByteSeq): Option<ByteSeq> { if lit <= s then Some(s[|lit|..]) else None }

  function ReadFileName(h: ByteSeq): Option<(ByteSeq, ByteSeq)> {
    var r := After(h, Ascii(FILENAME) + [QUOTE]);
    if r.None? then Some(([], h)) else ReadQuoted(r.value)
  }

  function ReadHead(h: ByteSeq): Option<(ByteSeq, ByteSeq, ByteSeq)> {
    match After(h, Ascii(DISPOSITION) + [QUOTE])
    case None => None
    case Some(h1) =>
      match ReadQuoted(h1)
      case None => None
      case Some((name, h2)) =>
        match ReadFileName(h2)
        case None => None
        case Some((filename, h3)) =>
          if h3 == [] then Some((name, filename, []))
          else match After(h3, CRLF + Ascii(TYPE)) case None => None case Some(ctype) => Some((name, filename, ctype))
  }

  lemma AfterIs(lit: ByteSeq, rest: ByteSeq)
    ensures After(lit + rest, lit) == Some(rest)
  {
  }

  lemma NoFileName(ctype: ByteSeq)
    ensures After(TypePart(ctype), Ascii(FILENAME) + [QUOTE]).None?
  {
    assert Ascii(FILENAME)[0] == 59;
    hide Ascii;
    if ctype != [] {
      assert TypePart(ctype)[0] == CR;
      assert (Ascii(FILENAME) + [QUOTE])[0] == 59;
    }
  }

  lemma FileNameReads(filename: ByteSeq, tail: ByteSeq)
    requires filename != []
    ensures var h := FileNamePart(filename) + tail;
            var r := After(h, Ascii(FILENAME) + [QUOTE]);
            r.Some? && ReadQuoted(r.value) == Some((OneLine(filename), tail))
  {
    hide Ascii, ReadQuoted, QuotedBody, After;
    var body := QuotedBody(filename) + [QUOTE] + tail;
    assert FileNamePart(filename) + tail == (Ascii(FILENAME) + [QUOTE]) + body;
    AfterIs(Ascii(FILENAME) + [QUOTE], body);
    QuotedReads(filename, tail);
  }

  lemma TypeReads(ctype: ByteSeq)
    requires ctype != []
    ensures After(TypePart(ctype), CRLF + Ascii(TYPE)) == Some(ctype) && TypePart(ctype) != []
  {
    hide Ascii, After;
    AfterIs(CRLF + Ascii(TYPE), ctype);
  }

  /** The header of a part reads as what it was made of, line breaks in its names aside. */
  lemma HeadReads(e: Entry)
    ensures ReadHead(Head(e)) == Some((OneLine(e.name), OneLine(e.filename), e.ctype))
  {
    hide Ascii, ReadQuoted, QuotedBody, After, TypePart;
    var tail := TypePart(e.ctype);
    var rest := FileNamePart(e.filename) + tail;
    var body := QuotedBody(e.name) + [QUOTE] + rest;
    assert Head(e) == (Ascii(DISPOSITION) + [QUOTE]) + body;
    AfterIs(Ascii(DISPOSITION) + [QUOTE], body);
    QuotedReads(e.name, rest);
    if e.filename == [] {
      assert rest == tail;
      NoFileName(e.ctype);
    } else {
      FileNameReads(e.filename, tail);
    }
    if e.ctype == [] {
      NoType();
    } else {
      TypeReads(e.ctype);
    }
  }

  lemma NoType()
    ensures TypePart([]) == []
  {
  }

  // ----- The form

  function ReadEntry(p: Piece): Option<Entry> {
    match ReadHead(p.head) case None => None case Some((n, f, c)) => Some(Entry(n, f, c, p.content))
  }

  function ReadEntries(ps: seq<Piece>): Option<seq<Entry>> {
    if ps == [] then Some([])
    else
      var e, more := ReadEntry(ps[0]), ReadEntries(ps[1..]);
      if e.None? || more.None? then None else Some([e.value] + more.value)
  }

  function ReadForm(s: ByteSeq, boundary: ByteSeq): Option<seq<Entry>> {
    var ps := ReadBody(s, boundary);
    if ps.None? then None else ReadEntries(ps.value)
  }

  /** What a receiver can know of an entry. */
  function Known(e: Entry): Entry { e.(name := OneLine(e.name), filename := OneLine(e.filename)) }

  function AllKnown(es: seq<Entry>): seq<Entry> {
    if es == [] then [] else [Known(es[0])] + AllKnown(es[1..])
  }

  /** The parts are those of the entries. */
  predicate Makes(boundary: ByteSeq, es: seq<Entry>, ps: seq<Part>) {
    && |ps| == |es|
    && forall i :: 0 <= i < |es| ==> ps[i].header == PartHeader(boundary, es[i]) && Body(ps[i]) == es[i].content
  }

  lemma FullSplits(boundary: ByteSeq, es: seq<Entry>, ps: seq<Part>)
    requires es != [] && Makes(boundary, es, ps)
    ensures Full(ps, Closing(boundary))
            == PartHeader(boundary, es[0]) + es[0].content + CRLF + Full(ps[1..], Closing(boundary))
    ensures Makes(boundary, es[1..], ps[1..])
  {
    hide PartHeader, Body;
  }

  /** Every body begins with a delimiter's own line. */
  lemma FullBegins(boundary: ByteSeq, es: seq<Entry>, ps: seq<Part>) returns (rest: ByteSeq)
    requires Makes(boundary, es, ps)
    ensures Full(ps, Closing(boundary)) == [45, 45] + boundary + rest
  {
    hide Body, Head;
    if es == [] {
      rest := [45, 45, CR, LF];
    } else {
      FullSplits(boundary, es, ps);
      rest := CRLF + Head(es[0]) + CRLF + CRLF + es[0].content + CRLF + Full(ps[1..], Closing(boundary));
    }
  }

  lemma ReadsOneMore(boundary: ByteSeq, e: Entry, es: seq<Entry>, more: Option<seq<Piece>>, r: Option<seq<Piece>>)
    requires r == if more.None? then None else Some([Piece(Head(e), e.content)] + more.value)
    ensures (r.Some? && ReadEntries(r.value) == Some(AllKnown([e] + es)))
            <==> (more.Some? && ReadEntries(more.value) == Some(AllKnown(es)))
  {
    hide Head, ReadHead;
    HeadReads(e);
    assert ([e] + es)[1..] == es;
    if more.Some? {
      assert r.value[1..] == more.value;
      var x := ReadEntries(more.value);
      if x.Some? {
        assert ([Known(e)] + x.value)[1..] == x.value;
        assert AllKnown([e] + es)[1..] == AllKnown(es);
      }
    }
  }

  lemma CutIsNoticed(e: Entry, es: seq<Entry>, r: seq<Piece>)
    requires r != [] && |r[0].content| < |e.content|
    ensures ReadEntries(r) != Some(AllKnown([e] + es))
  {
    hide ReadHead;
    assert AllKnown([e] + es)[0] == Known(e);
  }

  /** A receiver finds the form that was sent, field by field and byte for byte but for line breaks in
      names, if and only if no content contains the delimiter. */
  lemma {:induction false} FormReadsBack(boundary: ByteSeq, es: seq<Entry>, ps: seq<Part>)
    requires CR !in boundary && (forall i :: 0 <= i < |es| ==> CR !in es[i].ctype) && Makes(boundary, es, ps)
    ensures ReadForm(Full(ps, Closing(boundary)), boundary) == Some(AllKnown(es))
            <==> forall i :: 0 <= i < |es| ==> !Contains(es[i].content, Delimiter(boundary))
    decreases |es|
  {
    hide ReadBody, ReadEntries, Contains, PartHeader, Body, AllKnown, Delimiter, Closing, Full;
    if es == [] {
      NothingSent(boundary, ps);
    } else {
      var e, more := es[0], es[1..];
      FullSplits(boundary, es, ps);
      var rest := FullBegins(boundary, more, ps[1..]);
      PartRead(boundary, e, rest);
      assert Full(ps, Closing(boundary)) == PartText(boundary, e, rest);
      FormReadsBack(boundary, more, ps[1..]);
      assert [e] + more == es;
      var r := ReadBody(Full(ps, Closing(boundary)), boundary);
      if Contains(e.content, Delimiter(boundary)) {
        if r.Some? {
          CutIsNoticed(e, more, r.value);
        }
      } else {
        ReadsOneMore(boundary, e, more, ReadBody(Full(ps[1..], Closing(boundary)), boundary), r);
        assert forall i :: 0 <= i < |more| ==> more[i] == es[i + 1];
        assert forall i :: 0 < i < |es| ==> es[i] == more[i - 1];
      }
    }
  }

  lemma NothingSent(boundary: ByteSeq, ps: seq<Part>)
    requires ps == []
    ensures ReadForm(Full(ps, Closing(boundary)), boundary) == Some(AllKnown([]))
  {
    assert Full(ps, Closing(boundary)) == [45, 45] + boundary + [45, 45] + CRLF;
  }
}
