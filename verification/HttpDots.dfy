/** What removing dot segments makes of a path, said of paths (section 5.2.4 of RFC 3986). With the
    paths that are left alone, and read from the left, the laws lead any path to its answer. */
module HttpDots {
  import opened Bytes
  import opened HttpText
  import opened HttpUrl

  /** `a`, a slash, and `b`. */
  function Over(a: ByteSeq, b: ByteSeq): ByteSeq { a + [SLASH] + b }

  predicate Plain(seg: ByteSeq) { SLASH !in seg && !IsDot(seg) && !IsDotDot(seg) }

  /** Something in the path is no dot segment: always so if it is absolute. */
  predicate HasPlain(p: ByteSeq) { exists i :: 0 <= i < |Split(p)| && !IsDot(Split(p)[i]) && !IsDotDot(Split(p)[i]) }

  const ONE: ByteSeq := [DOT]
  const TWO: ByteSeq := [DOT, DOT]

  // ----- Segments of a joined path

  lemma SplitAt(s: ByteSeq, n: nat)
    requires n < |s| && s[n] == SLASH && SLASH !in s[..n]
    ensures Split(s) == [s[..n]] + Split(s[n + 1..])
  {
    FirstSlash(s, n);
  }

  lemma {:induction false} SplitOver(a: ByteSeq, b: ByteSeq)
    ensures Split(Over(a, b)) == Split(a) + Split(b)
    decreases |a|
  {
    hide Split;
    var s := Over(a, b);
    var i := FindByte(a, 0, SLASH);
    if i.None? {
      assert s[..|a|] == a && s[|a| + 1..] == b;
      SplitAt(s, |a|);
      SplitOne(a);
    } else {
      var n := i.value;
      var more := a[n + 1..];
      assert s[..n] == a[..n] && s[n] == SLASH && s[n + 1..] == Over(more, b);
      SplitAt(s, n);
      SplitAt(a, n);
      SplitOver(more, b);
      assert [a[..n]] + (Split(more) + Split(b)) == [a[..n]] + Split(more) + Split(b);
    }
  }

  lemma SplitOne(seg: ByteSeq)
    requires SLASH !in seg
    ensures Split(seg) == [seg]
  {
  }

  lemma {:induction false} ReduceConcat(out: seq<ByteSeq>, a: seq<ByteSeq>, b: seq<ByteSeq>)
    ensures Reduce(out, a + b) == Reduce(Reduce(out, a), b)
    decreases |a|
  {
    if a == [] {
      assert a + b == b;
    } else {
      assert (a + b)[1..] == a[1..] + b;
      ReduceConcat(Taken(out, a[0]), a[1..], b);
    }
  }

  /** What is left of a path so far. */
  function Left(p: ByteSeq): seq<ByteSeq> { Reduce([], Split(p)) }

  function Last(p: ByteSeq): ByteSeq { Split(p)[|Split(p)| - 1] }

  lemma LeftOver(p: ByteSeq, q: ByteSeq)
    ensures Left(Over(p, q)) == Reduce(Left(p), Split(q)) && Last(Over(p, q)) == Last(q)
  {
    SplitOver(p, q);
    ReduceConcat([], Split(p), Split(q));
  }

  /** The answer depends on what is left so far and on what follows. */
  lemma SameLeft(a: ByteSeq, b: ByteSeq, q: ByteSeq)
    requires Left(a) == Left(b)
    ensures RemoveDots(Over(a, q)) == RemoveDots(Over(b, q))
  {
    hide Reduce, Split;
    LeftOver(a, q);
    LeftOver(b, q);
  }

  lemma {:induction false} SomethingLeft(out: seq<ByteSeq>, segs: seq<ByteSeq>)
    ensures Reduce(out, segs) == []
            <==> out == [] && forall i :: 0 <= i < |segs| ==> IsDot(segs[i]) || IsDotDot(segs[i])
    decreases |segs|
  {
    if segs != [] {
      SomethingLeft(Taken(out, segs[0]), segs[1..]);
      assert forall i :: 1 <= i < |segs| ==> segs[i] == segs[1..][i - 1];
    }
  }

  lemma OneSegment(p: ByteSeq, s: ByteSeq)
    requires SLASH !in s
    ensures Left(Over(p, s)) == Taken(Left(p), s) && Last(Over(p, s)) == s
    ensures Left(s) == Taken([], s) && Last(s) == s
  {
    hide Reduce, Split, Taken;
    LeftOver(p, s);
    SplitOne(s);
    ReduceOne(Left(p), s);
    ReduceOne([], s);
  }

  lemma ReduceOne(out: seq<ByteSeq>, s: ByteSeq)
    ensures Reduce(out, [s]) == Taken(out, s)
  {
    hide Taken;
    assert |[s][1..]| == 0;
  }

  // ----- The laws

  /** A dot in a path stands for nothing. */
  lemma DotDrops(p: ByteSeq, q: ByteSeq)
    ensures RemoveDots(Over(Over(p, ONE), q)) == RemoveDots(Over(p, q))
    ensures RemoveDots(Over(ONE, q)) == RemoveDots(q)
  {
    hide RemoveDots, Left;
    OneSegment(p, ONE);
    SameLeft(Over(p, ONE), p, q);
    LeadingDrops(ONE, q);
  }

  lemma LeadingDrops(s: ByteSeq, q: ByteSeq)
    requires IsDot(s) || IsDotDot(s)
    ensures RemoveDots(Over(s, q)) == RemoveDots(q)
  {
    hide Split, Reduce;
    OneSegment([], s);
    LeftOver(s, q);
  }

  /** Two dots undo the segment before them: unless it is all there is, which they leave. */
  lemma DotDotUndoes(p: ByteSeq, s: ByteSeq, q: ByteSeq)
    requires Plain(s)
    ensures HasPlain(p) ==> RemoveDots(Over(Over(Over(p, s), TWO), q)) == RemoveDots(Over(p, q))
    ensures !HasPlain(p) ==> RemoveDots(Over(Over(Over(p, s), TWO), q)) == RemoveDots(Over(s, q))
  {
    hide RemoveDots, Left, HasPlain;
    Undone(p, s);
    SameLeft(Over(Over(p, s), TWO), if HasPlain(p) then p else s, q);
  }

  lemma Undone(p: ByteSeq, s: ByteSeq)
    requires Plain(s)
    ensures Left(Over(Over(p, s), TWO)) == Left(if HasPlain(p) then p else s)
  {
    hide Reduce, Split;
    OneSegment(p, s);
    OneSegment(Over(p, s), TWO);
    SomethingLeft([], Split(p));
    var out := Left(p);
    assert (out + [s])[..|out|] == out;
    assert !HasPlain(p) ==> out + [s] == [s];
  }

  /** Never above the root: with one segment before them, the empty one of an absolute path or the first
      of a relative one, two dots are dropped, and so they are with none. */
  lemma RootHolds(s: ByteSeq, q: ByteSeq)
    requires Plain(s)
    ensures RemoveDots(Over(Over(s, TWO), q)) == RemoveDots(Over(s, q))
    ensures RemoveDots(Over(TWO, q)) == RemoveDots(q)
  {
    hide RemoveDots, Left;
    OneSegment([], s);
    OneSegment(s, TWO);
    SameLeft(Over(s, TWO), s, q);
    LeadingDrops(TWO, q);
  }

  predicate EndsInSlash(p: ByteSeq) { p != [] && p[|p| - 1] == SLASH }

  lemma {:induction false} JoinEnds(segs: seq<ByteSeq>)
    requires NoSlash(segs) && segs != []
    ensures Join(segs + [[]]) == Join(segs) + [SLASH]
    ensures EndsInSlash(Join(segs)) <==> |segs| > 1 && segs[|segs| - 1] == []
    ensures Join(segs) == [] <==> segs == [[]]
  {
    if |segs| == 1 {
      assert (segs + [[]])[1..] == [[]];
      assert segs[0] + [SLASH] + [] == segs[0] + [SLASH];
    } else {
      JoinEnds(segs[1..]);
      assert (segs + [[]])[1..] == segs[1..] + [[]];
      assert segs[0] + [SLASH] + (Join(segs[1..]) + [SLASH]) == segs[0] + [SLASH] + Join(segs[1..]) + [SLASH];
    }
  }

  lemma RootedEnds(p: ByteSeq)
    ensures EndsInSlash(Rooted(p)) <==> p == [] || EndsInSlash(p)
    ensures p != [] ==> Rooted(p + [SLASH]) == Rooted(p) + [SLASH]
  {
  }

  /** What a path that ends in a dot segment comes to, by what is left of it. */
  lemma ClosedEnds(out: seq<ByteSeq>)
    requires NoSlash(out)
    ensures var p, d := Rooted(Join(out)), Rooted(Join(Closed(out, ONE)));
            EndsInSlash(d) && d == if EndsInSlash(p) then p else p + [SLASH]
  {
    hide Join;
    SingleJoin();
    if out == [] {
      NothingSplits();
      assert out + [[]] == [[]];
    } else {
      JoinEnds(out);
      RootedEnds(Join(out));
      RootedEnds(Join(out) + [SLASH]);
    }
  }

  lemma SingleJoin()
    ensures Join([[]]) == []
  {
  }

  lemma LeftPlain(p: ByteSeq)
    ensures NoSlash(Left(p))
  {
    SplitHasNoSlash(p);
    ReduceIsPlain([], Split(p));
  }

  /** A path that ends in a dot names a directory: it is what it was without it, and ends in a slash. */
  lemma TrailingDot(p: ByteSeq)
    ensures var d, r := RemoveDots(Over(p, ONE)), RemoveDots(p);
            EndsInSlash(d) && d == if EndsInSlash(r) then r else r + [SLASH]
    ensures RemoveDots(ONE) == [SLASH] == RemoveDots(TWO)
  {
    hide Reduce, Split, Join, Rooted;
    OneSegment(p, ONE);
    LeftPlain(p);
    ClosedEnds(Left(p));
    DotsAlone();
  }

  lemma DotsAlone()
    ensures RemoveDots(ONE) == [SLASH] && RemoveDots(TWO) == [SLASH]
  {
    hide Reduce, Split;
    OneSegment([], ONE);
    OneSegment([], TWO);
  }

  /** One that ends in two dots is what it is with the segment before them undone and a dot in their
      place. */
  lemma TrailingDotDot(p: ByteSeq, s: ByteSeq)
    requires Plain(s)
    ensures HasPlain(p) ==> RemoveDots(Over(Over(p, s), TWO)) == RemoveDots(Over(p, ONE))
    ensures !HasPlain(p) ==> RemoveDots(Over(Over(p, s), TWO)) == RemoveDots(Over(s, ONE))
    ensures RemoveDots(Over(s, TWO)) == RemoveDots(Over(s, ONE))
  {
    hide Reduce, Split, Join, Rooted, HasPlain;
    Undone(p, s);
    OneSegment(Over(p, s), TWO);
    OneSegment(p, ONE);
    OneSegment(s, TWO);
    OneSegment(s, ONE);
    OneSegment([], s);
  }
}
