/** Percent coding, query strings, and dot segments (sections 2.1, 3.4 and 5.2.4 of RFC 3986). */
module HttpUrl {
  import opened Bytes
  import opened HttpText

  const PERCENT: Byte := 37
  const PLUS: Byte := 43
  const AMP: Byte := 38
  const EQUALS: Byte := 61
  const SLASH: Byte := 47
  const DOT: Byte := 46

  // ----- Percent coding

  datatype EncodeSet = Strict | Path | Query

  predicate Unreserved(c: Byte) {
    || 'A' as int <= c <= 'Z' as int || 'a' as int <= c <= 'z' as int || '0' as int <= c <= '9' as int
    || c == '-' as int || c == '.' as int || c == '_' as int || c == '~' as int
  }

  predicate EncodeSafe(c: Byte, e: EncodeSet) {
    || Unreserved(c)
    || (e.Path? && c == SLASH)
    || (e.Query? && c in Ascii("/?:@!$'()*,;"))
  }

  function UpperHex(v: nat): Byte
    requires v < 16
  {
    if v < 10 then '0' as int + v else 'A' as int + v - 10
  }

  function HexVal(c: Byte): Option<nat> {
    if '0' as int <= c <= '9' as int then Some(c - '0' as int)
    else if 'a' as int <= c <= 'f' as int then Some(c - 'a' as int + 10)
    else if 'A' as int <= c <= 'F' as int then Some(c - 'A' as int + 10)
    else None
  }

  function Escape(c: Byte, e: EncodeSet): ByteSeq {
    if EncodeSafe(c, e) then [c] else [PERCENT, UpperHex(c / 16), UpperHex(c % 16)]
  }

  function Encode(s: ByteSeq, e: EncodeSet): ByteSeq {
    if s == [] then [] else Escape(s[0], e) + Encode(s[1..], e)
  }

  /** What is left as it is, by what is not: strictly, letters, digits and four marks; in a query, every
      visible character but those that delimit its fields, begin an escape or a fragment, or that no URL
      may hold. Anything else is a percent sign and two digits in upper case. */
  lemma EscapeExactly(c: Byte, e: EncodeSet)
    ensures Escape(c, Strict) == [c]
            <==> 33 <= c <= 126 && c !in Ascii("!\"#$%&'()*+,/") && c !in Ascii(":;<=>?@[\\]^`{|}")
    ensures Escape(c, Path) == [c] <==> Escape(c, Strict) == [c] || c == '/' as int
    ensures Escape(c, Query) == [c] <==> 33 <= c <= 126 && c !in Ascii("\"#%&+<=>[\\]^`{|}")
    ensures Escape(c, e) == [c]
            || var digits := Ascii("0123456789ABCDEF"); Escape(c, e) == Ascii("%") + [digits[c / 16]] + [digits[c % 16]]
  {
    hide Ascii;
    StrictMarks(c);
    MoreMarks(c);
    QueryMarks(c);
    QuerySafe(c);
    HexDigitsAre(c / 16);
    HexDigitsAre(c % 16);
  }

  lemma StrictMarks(c: Byte)
    ensures c in Ascii("!\"#$%&'()*+,/") <==> 33 <= c <= 44 || c == 47
  {
    assert Ascii("!\"#$%&'()*+,/") == [33, 34, 35, 36, 37, 38, 39, 40, 41, 42, 43, 44, 47];
  }

  lemma MoreMarks(c: Byte)
    ensures c in Ascii(":;<=>?@[\\]^`{|}") <==> 58 <= c <= 64 || 91 <= c <= 94 || c == 96 || 123 <= c <= 125
  {
    assert Ascii(":;<=>?@[\\]^`{|}") == [58, 59, 60, 61, 62, 63, 64, 91, 92, 93, 94, 96, 123, 124, 125];
  }

  lemma QueryMarks(c: Byte)
    ensures c in Ascii("\"#%&+<=>[\\]^`{|}")
            <==> c == 34 || c == 35 || c == 37 || c == 38 || c == 43 || 60 <= c <= 62 || 91 <= c <= 94
                 || c == 96 || 123 <= c <= 125
  {
    assert Ascii("\"#%&+<=>[\\]^`{|}") == [34, 35, 37, 38, 43, 60, 61, 62, 91, 92, 93, 94, 96, 123, 124, 125];
  }

  lemma QuerySafe(c: Byte)
    ensures c in Ascii("/?:@!$'()*,;")
            <==> c == 33 || c == 36 || 39 <= c <= 42 || c == 44 || c == 47 || c == 58 || c == 59 || c == 63 || c == 64
  {
    assert Ascii("/?:@!$'()*,;") == [47, 63, 58, 64, 33, 36, 39, 40, 41, 42, 44, 59];
  }

  lemma HexDigitsAre(v: nat)
    requires v < 16
    ensures Ascii("0123456789ABCDEF")[v] == UpperHex(v) && Ascii("%") == [PERCENT]
  {
    assert Ascii("0123456789ABCDEF") == [48, 49, 50, 51, 52, 53, 54, 55, 56, 57, 65, 66, 67, 68, 69, 70];
  }

  function HexByte(hi: nat, lo: nat): Byte { (16 * hi + lo) % 256 }

  /** The byte an escape at the front of `s` stands for, if there is a whole one. */
  function Escaped(s: ByteSeq): Option<Byte> {
    if |s| >= 3 && s[0] == PERCENT && HexVal(s[1]).Some? && HexVal(s[2]).Some?
    then Some(HexByte(HexVal(s[1]).value, HexVal(s[2]).value)) else None
  }

  /** Escapes undone; a percent sign that begins none stands for itself. */
  function Decode(s: ByteSeq, plusIsSpace: bool): ByteSeq {
    if s == [] then []
    else if s[0] == PLUS && plusIsSpace then [SP] + Decode(s[1..], plusIsSpace)
    else if Escaped(s).Some? then [Escaped(s).value] + Decode(s[3..], plusIsSpace)
    else [s[0]] + Decode(s[1..], plusIsSpace)
  }

  lemma HexBack(v: nat)
    requires v < 16
    ensures HexVal(UpperHex(v)) == Some(v)
  {
  }

  /** Only what begins with a percent sign is an escape, and what is safe as itself is neither that
      nor a plus sign. */
  lemma EscapeBack(c: Byte, e: EncodeSet, rest: ByteSeq)
    ensures if EncodeSafe(c, e) then c != PERCENT && c != PLUS else Escaped(Escape(c, e) + rest) == Some(c)
  {
    hide HexVal, UpperHex;
    HexBack(c / 16);
    HexBack(c % 16);
  }

  lemma DecodeEscape(c: Byte, e: EncodeSet, rest: ByteSeq, plus: bool)
    ensures Decode(Escape(c, e) + rest, plus) == [c] + Decode(rest, plus)
  {
    hide Escaped, Decode, EncodeSafe, UpperHex;
    var s := Escape(c, e) + rest;
    EscapeBack(c, e, rest);
    DecodeNext(s, plus);
    if EncodeSafe(c, e) {
      assert s[1..] == rest;
    } else {
      assert s[1..][2..] == rest;
    }
  }

  /** Decoding undoes encoding, whatever was escaped and whatever a plus sign means. */
  lemma {:induction false} UrlRoundTrip(s: ByteSeq, e: EncodeSet, plus: bool)
    ensures Decode(Encode(s, e), plus) == s
  {
    hide Escape, Escaped;
    if s != [] {
      DecodeEscape(s[0], e, Encode(s[1..], e), plus);
      UrlRoundTrip(s[1..], e, plus);
    }
  }

  /** Which bytes are digits, and what they stand for: sixteen values, the letters in either case. */
  lemma HexDigits(c: Byte)
    ensures HexVal(c).Some? <==> c in Ascii("0123456789abcdef") || c in Ascii("0123456789ABCDEF")
    ensures forall v :: 0 <= v < 16 ==>
              HexVal(Ascii("0123456789abcdef")[v]) == Some(v) && HexVal(Ascii("0123456789ABCDEF")[v]) == Some(v)
  {
    var lower, upper := Ascii("0123456789abcdef"), Ascii("0123456789ABCDEF");
    assert forall v :: 0 <= v < 16 ==> lower[v] == if v < 10 then 48 + v else 87 + v;
    assert forall v :: 0 <= v < 16 ==> upper[v] == if v < 10 then 48 + v else 55 + v;
    if HexVal(c).Some? {
      var v := HexVal(c).value;
      assert c == lower[v] || c == upper[v];
    }
  }

  /** Two digits after a percent sign, in either case, are the byte they spell. */
  lemma EscapeDecodes(hi: nat, lo: nat, h: Byte, l: Byte, rest: ByteSeq, plus: bool)
    requires hi < 16 && lo < 16
    requires h in [Ascii("0123456789abcdef")[hi], Ascii("0123456789ABCDEF")[hi]]
    requires l in [Ascii("0123456789abcdef")[lo], Ascii("0123456789ABCDEF")[lo]]
    ensures Decode([PERCENT, h, l] + rest, plus) == [16 * hi + lo] + Decode(rest, plus)
  {
    hide HexVal, Decode, Ascii;
    HexDigits(h);
    HexDigits(l);
    Spelled(hi, lo, h, l, rest, plus);
  }

  lemma Spelled(hi: nat, lo: nat, h: Byte, l: Byte, rest: ByteSeq, plus: bool)
    requires hi < 16 && lo < 16 && HexVal(h) == Some(hi) && HexVal(l) == Some(lo)
    ensures Decode([PERCENT, h, l] + rest, plus) == [16 * hi + lo] + Decode(rest, plus)
  {
    hide HexVal, Decode;
    var s := [PERCENT, h, l] + rest;
    DecodeNext(s, plus);
    assert s[1..][2..] == rest;
  }

  /** An escape stands at `i`. */
  predicate EscapeAt(s: ByteSeq, i: nat) {
    i + 2 < |s| && s[i] == PERCENT && HexVal(s[i + 1]).Some? && HexVal(s[i + 2]).Some?
  }

  lemma {:induction false} DecodeShrinks(s: ByteSeq, plus: bool)
    ensures |Decode(s, plus)| <= |s|
    ensures |Decode(s, plus)| == |s| <==> forall i :: 0 <= i < |s| ==> !EscapeAt(s, i)
  {
    hide HexVal;
    if s != [] {
      var esc := Escaped(s).Some?;
      assert esc <==> EscapeAt(s, 0);
      if esc {
        DecodeShrinks(s[3..], plus);
      } else {
        DecodeShrinks(s[1..], plus);
        assert forall i :: 0 <= i < |s| - 1 ==> (EscapeAt(s[1..], i) <==> EscapeAt(s, i + 1));
        assert forall i :: 1 <= i < |s| ==> (EscapeAt(s, i) <==> EscapeAt(s[1..], i - 1));
      }
    }
  }

  /** Text is left alone if and only if there is no escape in it, nor a plus sign that means a space: so a
      percent sign that begins none stands for itself. */
  lemma {:induction false} DecodeLeavesExactly(s: ByteSeq, plus: bool)
    ensures Decode(s, plus) == s <==> (forall i :: 0 <= i < |s| ==> !EscapeAt(s, i)) && !(plus && PLUS in s)
  {
    hide HexVal;
    DecodeShrinks(s, plus);
    if s != [] && forall i :: 0 <= i < |s| ==> !EscapeAt(s, i) {
      assert !EscapeAt(s, 0);
      assert forall i :: 0 <= i < |s| - 1 ==> (EscapeAt(s[1..], i) <==> EscapeAt(s, i + 1));
      DecodeLeavesExactly(s[1..], plus);
      assert PLUS in s <==> s[0] == PLUS || PLUS in s[1..];
      assert Decode(s, plus)[1..] == Decode(s[1..], plus);
      assert s == [s[0]] + s[1..];
    }
  }

  lemma {:induction false} EncodeAppend(s: ByteSeq, c: Byte, e: EncodeSet)
    ensures Encode(s + [c], e) == Encode(s, e) + Escape(c, e)
  {
    hide Escape;
    if s == [] {
      assert s + [c] == [c] && [c][1..] == [];
    } else {
      EncodeAppend(s[1..], c, e);
      assert (s + [c])[1..] == s[1..] + [c];
    }
  }

  method UrlEncode(s: ByteSeq, e: EncodeSet) returns (out: ByteSeq)
    ensures out == Encode(s, e)
  {
    hide Escape;
    out := [];
    for i := 0 to |s|
      invariant out == Encode(s[..i], e)
    {
      assert s[..i + 1] == s[..i] + [s[i]];
      EncodeAppend(s[..i], s[i], e);
      out := out + Escape(s[i], e);
    }
    assert s[..|s|] == s;
  }

  /** A byte source that takes back up to two bytes. */
  class PushbackSource {
    const data: ByteSeq
    var pos: nat
    var pushed: seq<Byte>

    ghost predicate Valid()
      reads this
    {
      pos <= |data| && |pushed| <= 2
    }

    /** What is still to come, taken-back bytes first, the last of them foremost. */
    ghost function Rest(): ByteSeq
      requires Valid()
      reads this
    {
      (if |pushed| == 0 then [] else if |pushed| == 1 then [pushed[0]] else [pushed[1], pushed[0]]) + data[pos..]
    }

    constructor (s: ByteSeq)
      ensures Valid() && Rest() == s && pushed == []
    {
      data, pos, pushed := s, 0, [];
    }

    method NextByte() returns (c: Option<Byte>)
      requires Valid()
      modifies this
      ensures Valid() && |pushed| <= |old(pushed)|
      ensures c.None? <==> old(Rest()) == []
      ensures c.Some? ==> c.value == old(Rest())[0] && Rest() == old(Rest())[1..]
      ensures c.None? ==> Rest() == []
      ensures c.Some? && |old(pushed)| > 0 ==> |pushed| == |old(pushed)| - 1
    {
      if |pushed| > 0 {
        c := Some(pushed[|pushed| - 1]);
        pushed := pushed[..|pushed| - 1];
      } else if pos < |data| {
        c := Some(data[pos]);
        pos := pos + 1;
      } else {
        c := None;
      }
    }

    method Push(c: Byte)
      requires Valid() && |pushed| < 2
      modifies this`pushed
      ensures Valid() && |pushed| == |old(pushed)| + 1 && Rest() == [c] + old(Rest())
    {
      pushed := pushed + [c];
    }
  }

  /** Takes the rest of an escape whose percent sign has been taken, or puts everything back. */
  method TakeEscape(src: PushbackSource) returns (b: Option<Byte>)
    requires src.Valid() && |src.pushed| <= 1
    modifies src
    ensures src.Valid() && b == Escaped([PERCENT] + old(src.Rest()))
    ensures b.Some? ==> src.Rest() == old(src.Rest())[2..]
    ensures b.None? ==> src.Rest() == old(src.Rest())
  {
    hide PushbackSource.Rest, HexVal, Escaped;
    ghost var rest := src.Rest();
    EscapedIs(rest);
    var h := src.NextByte();
    if h.None? {
      return None;
    }
    var l := src.NextByte();
    if l.Some? {
      var hi, lo := HexVal(h.value), HexVal(l.value);
      if hi.Some? && lo.Some? {
        return Some(HexByte(hi.value, lo.value));
      }
      src.Push(l.value);
    }
    src.Push(h.value);
    assert src.Rest() == rest;
    return None;
  }

  lemma EscapedIs(rest: ByteSeq)
    ensures Escaped([PERCENT] + rest)
            == if |rest| >= 2 && HexVal(rest[0]).Some? && HexVal(rest[1]).Some?
               then Some(HexByte(HexVal(rest[0]).value, HexVal(rest[1]).value)) else None
  {
    hide HexVal;
  }

  /** Takes as much as stands for one byte. */
  method TakeByte(src: PushbackSource, plusIsSpace: bool) returns (b: Option<Byte>)
    requires src.Valid()
    modifies src
    ensures src.Valid() && (b.None? <==> old(src.Rest()) == []) && (b.None? ==> src.Rest() == [])
    ensures b.Some? ==> |src.Rest()| < |old(src.Rest())|
                        && Decode(old(src.Rest()), plusIsSpace) == [b.value] + Decode(src.Rest(), plusIsSpace)
  {
    hide Escaped, Decode, PushbackSource.Rest;
    ghost var rest := src.Rest();
    DecodeNext(rest, plusIsSpace);
    var c := src.NextByte();
    if c.None? {
      return None;
    }
    if c.value == PLUS && plusIsSpace {
      return Some(SP);
    }
    if c.value == PERCENT {
      assert rest == [PERCENT] + src.Rest();
      b := TakeEscape(src);
      if b.Some? {
        return;
      }
    }
    return c;
  }

  method UrlDecode(s: ByteSeq, plusIsSpace: bool) returns (out: ByteSeq)
    ensures out == Decode(s, plusIsSpace)
  {
    hide Decode, PushbackSource.Rest;
    var src := new PushbackSource(s);
    out := [];
    while true
      invariant src.Valid() && fresh(src) && Decode(s, plusIsSpace) == out + Decode(src.Rest(), plusIsSpace)
      decreases |src.Rest()|
    {
      var b := TakeByte(src, plusIsSpace);
      if b.None? {
        DecodeNext([], plusIsSpace);
        return;
      }
      out := out + [b.value];
    }
  }

  lemma DecodeNext(s: ByteSeq, plus: bool)
    ensures Decode([], plus) == []
    ensures s != [] ==>
              Decode(s, plus) ==
                if s[0] == PLUS && plus then [SP] + Decode(s[1..], plus)
                else if Escaped(s).Some? then [Escaped(s).value] + Decode(s[1..][2..], plus)
                else [s[0]] + Decode(s[1..], plus)
    ensures Escaped(s).Some? ==> |s| >= 3 && s[0] == PERCENT
  {
    if |s| >= 3 {
      assert s[1..][2..] == s[3..];
    }
  }

  // ----- Query strings

  datatype Pair = Pair(name: ByteSeq, value: ByteSeq)

  predicate IsSep(c: Byte) { c == AMP || c == SEMICOLON }

  /** Where the piece at the front of `s` ends. */
  function PieceEnd(s: ByteSeq): (n: nat)
    ensures n <= |s| && (n < |s| ==> IsSep(s[n])) && forall i :: 0 <= i < n ==> !IsSep(s[i])
  {
    if s == [] || IsSep(s[0]) then 0 else 1 + PieceEnd(s[1..])
  }

  /** The pair a piece stands for, if its name is one a list of pairs may hold. */
  function PairOf(piece: ByteSeq): seq<Pair> {
    if piece == [] then []
    else
      var eq := FindByte(piece, 0, EQUALS);
      var p := if eq.Some? then Pair(Decode(piece[..eq.value], true), Decode(piece[eq.value + 1..], true))
               else Pair(Decode(piece, true), []);
      if p.name == [] then [] else [p]
  }

  function QueryParse(s: ByteSeq): seq<Pair>
    decreases |s|
  {
    var n := PieceEnd(s);
    PairOf(s[..n]) + (if n < |s| then QueryParse(s[n + 1..]) else [])
  }

  function PairText(p: Pair): ByteSeq { Encode(p.name, Strict) + [EQUALS] + Encode(p.value, Strict) }

  function QueryFormat(ps: seq<Pair>): ByteSeq {
    if ps == [] then []
    else if |ps| == 1 then PairText(ps[0])
    else PairText(ps[0]) + [AMP] + QueryFormat(ps[1..])
  }

  /** Encoded text holds nothing but unreserved characters and escapes. */
  lemma {:induction false} EncodedIsPlain(s: ByteSeq)
    ensures forall i :: 0 <= i < |Encode(s, Strict)| ==>
              var c := Encode(s, Strict)[i]; c != EQUALS && !IsSep(c)
  {
    if s != [] {
      EncodedIsPlain(s[1..]);
      EscapeIsPlain(s[0]);
    }
  }

  lemma EscapeIsPlain(c: Byte)
    ensures forall i :: 0 <= i < |Escape(c, Strict)| ==>
              Escape(c, Strict)[i] != EQUALS && !IsSep(Escape(c, Strict)[i])
  {
  }

  lemma PairReads(p: Pair)
    ensures PairOf(PairText(p)) == if p.name == [] then [] else [p]
    ensures forall i :: 0 <= i < |PairText(p)| ==> !IsSep(PairText(p)[i])
  {
    hide Encode, Decode;
    EncodedIsPlain(p.name);
    EncodedIsPlain(p.value);
    UrlRoundTrip(p.name, Strict, true);
    UrlRoundTrip(p.value, Strict, true);
    var n, t := Encode(p.name, Strict), PairText(p);
    assert t[|n|] == EQUALS && t[..|n|] == n && t[|n| + 1..] == Encode(p.value, Strict);
    var eq := FindByte(t, 0, EQUALS);
    assert eq == Some(|n|);
  }

  function Named(ps: seq<Pair>): seq<Pair> {
    if ps == [] then [] else (if ps[0].name == [] then [] else [ps[0]]) + Named(ps[1..])
  }

  /** A query read back has every pair that has a name, in order; so it is the pairs that were
      written exactly when all of them have one. */
  lemma {:induction false} QueryRoundTrip(ps: seq<Pair>)
    ensures QueryParse(QueryFormat(ps)) == Named(ps)
    ensures Named(ps) == ps <==> forall i :: 0 <= i < |ps| ==> ps[i].name != []
  {
    hide PairOf, PairText;
    NamedIs(ps);
    if ps != [] {
      PairReads(ps[0]);
      var t := PairText(ps[0]);
      var q := QueryFormat(ps);
      if |ps| == 1 {
        assert PieceEnd(q) == |q| && q[..|q|] == t;
        assert ps[1..] == [];
      } else {
        QueryRoundTrip(ps[1..]);
        assert q[|t|] == AMP && PieceEnd(q) == |t| && q[..|t|] == t && q[|t| + 1..] == QueryFormat(ps[1..]);
      }
    } else {
      NoPairs();
    }
  }

  lemma NoPairs()
    ensures QueryParse([]) == []
  {
  }

  lemma {:induction false} NamedIs(ps: seq<Pair>)
    ensures |Named(ps)| <= |ps|
    ensures Named(ps) == ps <==> forall i :: 0 <= i < |ps| ==> ps[i].name != []
  {
    if ps != [] {
      NamedIs(ps[1..]);
      if ps[0].name != [] {
        assert Named(ps) == [ps[0]] + Named(ps[1..]);
        assert ps == [ps[0]] + ps[1..];
        assert Named(ps) == ps ==> Named(ps)[1..] == ps[1..];
      }
    }
  }

  // ----- Dot segments

  function Split(s: ByteSeq): (segs: seq<ByteSeq>)
    ensures segs != []
    decreases |s|
  {
    match FindByte(s, 0, SLASH)
    case None => [s]
    case Some(i) => [s[..i]] + Split(s[i + 1..])
  }

  function Join(segs: seq<ByteSeq>): ByteSeq {
    if segs == [] then []
    else if |segs| == 1 then segs[0]
    else segs[0] + [SLASH] + Join(segs[1..])
  }

  predicate NoSlash(segs: seq<ByteSeq>) { forall i :: 0 <= i < |segs| ==> SLASH !in segs[i] }

  predicate IsDot(seg: ByteSeq) { seg == [DOT] }

  predicate IsDotDot(seg: ByteSeq) { seg == [DOT, DOT] }

  predicate NoDots(segs: seq<ByteSeq>) { forall i :: 0 <= i < |segs| ==> !IsDot(segs[i]) && !IsDotDot(segs[i]) }

  /** One more segment: a dot is dropped, and two drop the segment before, but never the first. */
  function Taken(out: seq<ByteSeq>, s: ByteSeq): seq<ByteSeq> {
    if IsDot(s) then out
    else if IsDotDot(s) then (if |out| > 1 then out[..|out| - 1] else out)
    else out + [s]
  }

  /** The segments left of a path. */
  function Reduce(out: seq<ByteSeq>, segs: seq<ByteSeq>): seq<ByteSeq>
    decreases |segs|
  {
    if segs == [] then out else Reduce(Taken(out, segs[0]), segs[1..])
  }

  /** A path that ended in a dot segment names a directory, and keeps its slash. */
  function Closed(out: seq<ByteSeq>, last: ByteSeq): seq<ByteSeq> {
    if (IsDot(last) || IsDotDot(last)) && (out == [] || out[|out| - 1] != []) then out + [[]] else out
  }

  function Rooted(p: ByteSeq): ByteSeq { if p == [] || p[0] != SLASH then [SLASH] + p else p }

  function RemoveDots(path: ByteSeq): ByteSeq {
    var segs := Split(path);
    Rooted(Join(Closed(Reduce([], segs), segs[|segs| - 1])))
  }

  /** An absolute path with no dot segment in it. */
  predicate Normal(p: ByteSeq) { p != [] && p[0] == SLASH && NoDots(Split(p)) }

  lemma {:induction false} SplitHasNoSlash(s: ByteSeq)
    ensures NoSlash(Split(s)) && Join(Split(s)) == s
    decreases |s|
  {
    var i := FindByte(s, 0, SLASH);
    if i.Some? {
      SplitHasNoSlash(s[i.value + 1..]);
      assert s == s[..i.value] + [SLASH] + s[i.value + 1..];
      assert Split(s)[1..] == Split(s[i.value + 1..]);
    }
  }

  lemma {:induction false} SplitJoin(segs: seq<ByteSeq>)
    requires segs != [] && NoSlash(segs)
    ensures Split(Join(segs)) == segs
  {
    var s := Join(segs);
    if |segs| > 1 {
      SplitJoin(segs[1..]);
      assert s[|segs[0]|] == SLASH && s[..|segs[0]|] == segs[0] && s[|segs[0]| + 1..] == Join(segs[1..]);
      assert FindByte(s, 0, SLASH) == Some(|segs[0]|) by {
        FirstSlash(s, |segs[0]|);
      }
      assert segs == [segs[0]] + segs[1..];
    } else {
      assert SLASH !in segs[0];
    }
  }

  lemma FirstSlash(s: ByteSeq, n: nat)
    requires n < |s| && s[n] == SLASH && SLASH !in s[..n]
    ensures FindByte(s, 0, SLASH) == Some(n)
  {
    var i := FindByte(s, 0, SLASH);
    assert i.Some?;
    assert forall k :: 0 <= k < n ==> s[k] == s[..n][k];
  }

  lemma {:induction false} ReduceIsPlain(out: seq<ByteSeq>, segs: seq<ByteSeq>)
    requires NoSlash(out) && NoSlash(segs) && NoDots(out)
    ensures NoSlash(Reduce(out, segs)) && NoDots(Reduce(out, segs))
    decreases |segs|
  {
    if segs != [] {
      ReduceIsPlain(Taken(out, segs[0]), segs[1..]);
    }
  }

  lemma {:induction false} ReduceKeeps(out: seq<ByteSeq>, segs: seq<ByteSeq>)
    requires NoDots(segs)
    ensures Reduce(out, segs) == out + segs
    decreases |segs|
  {
    if segs != [] {
      assert !IsDot(segs[0]) && !IsDotDot(segs[0]);
      ReduceKeeps(out + [segs[0]], segs[1..]);
      assert out + [segs[0]] + segs[1..] == out + segs;
    }
  }

  lemma RootedIsNormal(segs: seq<ByteSeq>)
    requires NoSlash(segs) && NoDots(segs)
    ensures Normal(Rooted(Join(segs)))
  {
    hide Split, Join;
    var p := Join(segs);
    if segs == [] {
      NothingSplits();
      SplitRooted(p);
    } else {
      SplitJoin(segs);
      if p == [] || p[0] != SLASH {
        SplitRooted(p);
      }
    }
  }

  lemma NothingSplits()
    ensures Join([]) == [] && Split([]) == [[]]
  {
  }

  lemma SplitRooted(p: ByteSeq)
    ensures Split([SLASH] + p) == [[]] + Split(p)
  {
    var s := [SLASH] + p;
    assert FindByte(s, 0, SLASH) == Some(0);
    assert s[..0] == [] && s[1..] == p;
  }

  /** Whatever the path, what comes out is absolute and has no dot segment. */
  lemma RemovedIsNormal(path: ByteSeq)
    ensures Normal(RemoveDots(path))
  {
    hide Split, Join, Reduce, Normal;
    var segs := Split(path);
    SplitHasNoSlash(path);
    ReduceIsPlain([], segs);
    var out := Reduce([], segs);
    RootedIsNormal(Closed(out, segs[|segs| - 1]));
  }

  /** And the paths it leaves alone are exactly those; so running it again changes nothing. */
  lemma RemoveDotsIdempotent(path: ByteSeq)
    ensures RemoveDots(path) == path <==> Normal(path)
    ensures RemoveDots(RemoveDots(path)) == RemoveDots(path)
  {
    hide RemoveDots, Normal;
    RemovedIsNormal(path);
    if Normal(path) {
      NormalStays(path);
    }
    NormalStays(RemoveDots(path));
  }

  lemma NormalStays(p: ByteSeq)
    requires Normal(p)
    ensures RemoveDots(p) == p
  {
    hide Split, Join, Reduce;
    var segs := Split(p);
    SplitHasNoSlash(p);
    ReduceKeeps([], segs);
    assert [] + segs == segs;
    assert !IsDot(segs[|segs| - 1]) && !IsDotDot(segs[|segs| - 1]);
  }

  method RemoveDotSegments(path: ByteSeq) returns (out: ByteSeq)
    ensures out == RemoveDots(path)
  {
    hide Split, Join;
    var segs := Split(path);
    var kept: seq<ByteSeq> := [];
    for i := 0 to |segs|
      invariant Reduce([], segs) == Reduce(kept, segs[i..])
    {
      assert segs[i..][1..] == segs[i + 1..];
      var s := segs[i];
      if IsDot(s) {
        continue;
      } else if IsDotDot(s) {
        if |kept| > 1 {
          kept := kept[..|kept| - 1];
        }
        continue;
      }
      kept := kept + [s];
    }
    var last := segs[|segs| - 1];
    if (IsDot(last) || IsDotDot(last)) && (|kept| == 0 || kept[|kept| - 1] != []) {
      kept := kept + [[]];
    }
    out := Join(kept);
    if out == [] || out[0] != SLASH {
      out := [SLASH] + out;
    }
  }
}
