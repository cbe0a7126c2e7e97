/** Reading one line off the front of a stream that is still arriving. */
module HttpLine {
  import opened Bytes
  import opened HttpText

  datatype LineResult = Got(line: ByteSeq, skip: nat) | Incomplete | TooLong | Malformed

  /** What the bytes of a window say about the line they begin. */
  datatype Verdict = Undecided | Ends(eol: nat, skip: nat) | Bad

  /** The scan of a window from position `i`. */
  function Scan(w: ByteSeq, bareLF: bool, i: nat): (v: Verdict)
    ensures v.Ends? ==> i < v.skip <= |w| && v.eol < v.skip
    decreases |w| - i
  {
    if i >= |w| then Undecided
    else if w[i] == LF then
      if i > 0 && w[i - 1] == CR then Ends(i - 1, i + 1)
      else if bareLF then Ends(i, i + 1)
      else Bad
    else if w[i] == CR && i + 1 < |w| && w[i + 1] != LF then Bad
    else Scan(w, bareLF, i + 1)
  }

  /** The part of the input the reader looks at: a line of the longest permitted length and its
      terminator. */
  function Window(src: ByteSeq, limit: nat): ByteSeq { src[..Min(|src|, limit + 2)] }

  function ReadLine(src: ByteSeq, limit: nat, bareLF: bool): (r: LineResult)
    ensures r.Got? ==> 0 < r.skip <= |src|
  {
    var w := Window(src, limit);
    match Scan(w, bareLF, 0)
    case Ends(eol, skip) => Got(w[..eol], skip)
    case Bad => Malformed
    case Undecided => if |w| > limit then TooLong else Incomplete
  }

  // ----- How a verdict depends on what has arrived

  lemma {:induction false} ScanExtends(w: ByteSeq, more: ByteSeq, bareLF: bool, i: nat)
    ensures Scan(w, bareLF, i) != Undecided ==> Scan(w + more, bareLF, i) == Scan(w, bareLF, i)
    decreases |w| - i
  {
    if i < |w| {
      ScanExtends(w, more, bareLF, i + 1);
    }
  }

  /** The line is decided by byte `limit + 2` and by nothing before it: accepted or refused on its
      own account when it is all there, and too long when that last byte has yet to come. */
  predicate AtEdge(src: ByteSeq, limit: nat, bareLF: bool) {
    && |src| >= limit + 2
    && Scan(src[..limit + 1], bareLF, 0) == Undecided
    && Scan(src[..limit + 2], bareLF, 0) != Undecided
  }

  /** The same, read off the bytes: no line end and no CR among the first `limit`, no LF after them, and
      then a CR, or an LF after one more. */
  predicate LastByteDecides(src: ByteSeq, limit: nat) {
    && |src| >= limit + 2
    && (forall i :: 0 <= i < limit ==> src[i] != CR && src[i] != LF)
    && src[limit] != LF && (src[limit] == CR || src[limit + 1] == LF)
  }

  lemma EdgeIs(src: ByteSeq, limit: nat, bareLF: bool)
    ensures AtEdge(src, limit, bareLF) <==> LastByteDecides(src, limit)
  {
    if |src| >= limit + 2 {
      var w, v := src[..limit + 1], src[..limit + 2];
      ScanUndecided(w, bareLF, 0);
      ScanUndecided(v, bareLF, 0);
    }
  }

  /** A scan decides nothing exactly when there is no LF, and no CR but at the end. */
  lemma {:induction false} ScanUndecided(w: ByteSeq, bareLF: bool, i: nat)
    ensures Scan(w, bareLF, i) == Undecided
            <==> forall k :: i <= k < |w| ==> w[k] != LF && (w[k] == CR ==> k + 1 == |w|)
    decreases |w| - i
  {
    if i < |w| {
      ScanUndecided(w, bareLF, i + 1);
    }
  }

  /** Whatever has been decided stays decided as more arrives, unless the line is at the edge. */
  lemma ReadLineExtends(src: ByteSeq, more: ByteSeq, limit: nat, bareLF: bool)
    requires ReadLine(src, limit, bareLF) != Incomplete
    requires !AtEdge(src + more, limit, bareLF)
    ensures ReadLine(src + more, limit, bareLF) == ReadLine(src, limit, bareLF)
  {
    var w, w' := Window(src, limit), Window(src + more, limit);
    assert w' == w + w'[|w|..];
    ScanExtends(w, w'[|w|..], bareLF, 0);
    match Scan(w, bareLF, 0)
    case Bad =>
    case Ends(eol, _) => assert w'[..eol] == w[..eol];
    case Undecided =>
      if |src| >= limit + 2 || more == [] {
        assert w' == w;
      } else {
        assert (src + more)[..limit + 1] == w && (src + more)[..limit + 2] == w';
      }
  }

  lemma EdgeExtends(src: ByteSeq, more: ByteSeq, limit: nat, bareLF: bool)
    ensures AtEdge(src, limit, bareLF) ==> AtEdge(src + more, limit, bareLF)
  {
    if |src| >= limit + 2 {
      assert (src + more)[..limit + 1] == src[..limit + 1];
      assert (src + more)[..limit + 2] == src[..limit + 2];
    }
  }

  /** Exactly when a line reads the same however it arrives: every part of the input either says
      nothing yet or says what the whole says, if and only if the line is not at the edge. */
  lemma LineIndependenceExact(src: ByteSeq, limit: nat, bareLF: bool)
    ensures (forall k :: 0 <= k <= |src| ==>
               ReadLine(src[..k], limit, bareLF) in {Incomplete, ReadLine(src, limit, bareLF)})
            <==> !AtEdge(src, limit, bareLF)
  {
    var r := ReadLine(src, limit, bareLF);
    if !AtEdge(src, limit, bareLF) {
      forall k | 0 <= k <= |src|
        ensures ReadLine(src[..k], limit, bareLF) in {Incomplete, r}
      {
        assert src == src[..k] + src[k..];
        if ReadLine(src[..k], limit, bareLF) != Incomplete {
          ReadLineExtends(src[..k], src[k..], limit, bareLF);
        }
      }
    } else {
      var k := limit + 1;
      assert Window(src[..k], limit) == src[..k];
      assert ReadLine(src[..k], limit, bareLF) == TooLong;
    }
  }

  /** A line of exactly the permitted length, ended by CR LF, is accepted when it arrives whole and
      refused when its LF is late. */
  lemma LongestLineIsAtEdge(line: ByteSeq, rest: ByteSeq, bareLF: bool)
    requires forall i :: 0 <= i < |line| ==> line[i] != CR && line[i] != LF
    ensures ReadLine(line + [CR, LF] + rest, |line|, bareLF) == Got(line, |line| + 2)
    ensures ReadLine(line + [CR], |line|, bareLF) == TooLong
  {
    var whole, cut := line + [CR, LF], line + [CR];
    ScanPlain(whole, bareLF, 0, |line|);
    ScanPlain(cut, bareLF, 0, |line|);
    assert Window(line + [CR, LF] + rest, |line|) == whole;
    assert Window(cut, |line|) == cut;
    assert whole[..|line|] == line;
    assert Scan(whole, bareLF, |line|) == Scan(whole, bareLF, |line| + 1);
  }

  lemma {:induction false} ScanPlain(w: ByteSeq, bareLF: bool, i: nat, n: nat)
    requires i <= n <= |w|
    requires forall k :: i <= k < n ==> w[k] != CR && w[k] != LF
    ensures Scan(w, bareLF, i) == Scan(w, bareLF, n)
    decreases n - i
  {
    if i < n {
      ScanPlain(w, bareLF, i + 1, n);
    }
  }

  /** A line shorter than the limit, with CR LF after it, reads as itself. */
  lemma LineReads(line: ByteSeq, rest: ByteSeq, limit: nat, bareLF: bool)
    requires |line| <= limit
    requires forall i :: 0 <= i < |line| ==> line[i] != CR && line[i] != LF
    ensures ReadLine(line + [CR, LF] + rest, limit, bareLF) == Got(line, |line| + 2)
    ensures |line| < limit ==> !AtEdge(line + [CR, LF] + rest, limit, bareLF)
  {
    var src, n := line + [CR, LF] + rest, |line|;
    var w := Window(src, limit);
    ScanPlain(w, bareLF, 0, n);
    assert Scan(w, bareLF, n) == Scan(w, bareLF, n + 1);
    assert w[..n] == line;
    if n < limit && |src| >= limit + 2 {
      var v := src[..limit + 1];
      ScanPlain(v, bareLF, 0, n);
      assert Scan(v, bareLF, n) == Scan(v, bareLF, n + 1);
    }
  }

  /** Reads one line without consuming it: peeks at no more than the window and scans it. */
  method PeekLine(src: ByteSeq, limit: nat, bareLF: bool) returns (r: LineResult)
    ensures r == ReadLine(src, limit, bareLF)
  {
    var want := Min(|src|, limit + 2);
    if want == 0 {
      return Incomplete;
    }
    var scan := src[..want];
    for i := 0 to want
      invariant Scan(scan, bareLF, 0) == Scan(scan, bareLF, i)
    {
      if scan[i] == LF {
        if i > 0 && scan[i - 1] == CR {
          return Got(scan[..i - 1], i + 1);
        } else if bareLF {
          return Got(scan[..i], i + 1);
        }
        return Malformed;
      }
      if scan[i] == CR && i + 1 < want && scan[i + 1] != LF {
        return Malformed;
      }
    }
    if want > limit {
      return TooLong;
    }
    return Incomplete;
  }
}
