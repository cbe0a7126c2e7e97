/** The algorithm of section 5.2.4 of RFC 3986, step by step on strings as it is written there, and
    exactly when the path that the client computes is the path it gives. */
module HttpRfcDots {
  import opened Bytes
  import opened HttpText
  import opened HttpUrl

  /** Removes the last segment and the slash before it. */
  function Chop(out: ByteSeq): (r: ByteSeq)
    ensures |r| <= |out|
  {
    if out == [] then [] else if out[|out| - 1] == SLASH then out[..|out| - 1] else Chop(out[..|out| - 1])
  }

  /** Where the first segment ends, a slash at the front being part of it. */
  function SegmentEnd(s: ByteSeq): (n: nat)
    requires s != []
    ensures 0 < n <= |s| && (n < |s| ==> s[n] == SLASH) && forall i :: 1 <= i < n ==> s[i] != SLASH
  {
    var r := FindByte(s, 1, SLASH);
    if r.Some? then r.value else |s|
  }

  /** Steps A to E, until the input is used up. */
  function Remove(input: ByteSeq, out: ByteSeq): ByteSeq
    decreases |input|
  {
    if input == [] then out
    else if [DOT, DOT, SLASH] <= input then Remove(input[3..], out)
    else if [DOT, SLASH] <= input then Remove(input[2..], out)
    else if [SLASH, DOT, SLASH] <= input then Remove(input[2..], out)
    else if input == [SLASH, DOT] then Remove([SLASH], out)
    else if [SLASH, DOT, DOT, SLASH] <= input then Remove(input[3..], Chop(out))
    else if input == [SLASH, DOT, DOT] then Remove([SLASH], Chop(out))
    else if input == [DOT] || input == [DOT, DOT] then out
    else Remove(input[SegmentEnd(input)..], out + input[..SegmentEnd(input)])
  }

  // ----- The same, of segments

  /** Each segment behind a slash. */
  function Behind(segs: seq<ByteSeq>): ByteSeq {
    if segs == [] then [] else Behind(segs[..|segs| - 1]) + [SLASH] + segs[|segs| - 1]
  }

  function Pop(out: seq<ByteSeq>): seq<ByteSeq> { if out == [] then [] else out[..|out| - 1] }

  predicate Dots(seg: ByteSeq) { IsDot(seg) || IsDotDot(seg) }

  function Push(out: seq<ByteSeq>, seg: ByteSeq): seq<ByteSeq> {
    if IsDot(seg) then out else if IsDotDot(seg) then Pop(out) else out + [seg]
  }

  /** The segments left of an absolute path, before its last is seen to. */
  function Stack(out: seq<ByteSeq>, segs: seq<ByteSeq>): seq<ByteSeq>
    decreases |segs|
  {
    if segs == [] then out else Stack(Push(out, segs[0]), segs[1..])
  }

  /** A path that ends in a dot segment gets an empty one in its place. */
  function Ended(out: seq<ByteSeq>, last: ByteSeq): seq<ByteSeq> { if Dots(last) then out + [[]] else out }

  lemma BehindMore(segs: seq<ByteSeq>, seg: ByteSeq)
    ensures Behind(segs + [seg]) == Behind(segs) + [SLASH] + seg
  {
    assert (segs + [seg])[..|segs|] == segs;
  }

  lemma {:induction false} ChopText(a: ByteSeq, seg: ByteSeq)
    requires SLASH !in seg
    ensures Chop(a + [SLASH] + seg) == a
    decreases |seg|
  {
    var s := a + [SLASH] + seg;
    if seg == [] {
      assert s[..|s| - 1] == a;
    } else {
      assert s[..|s| - 1] == a + [SLASH] + seg[..|seg| - 1];
      assert s[|s| - 1] == seg[|seg| - 1];
      ChopText(a, seg[..|seg| - 1]);
    }
  }

  lemma ChopPops(out: seq<ByteSeq>)
    requires NoSlash(out)
    ensures Chop(Behind(out)) == Behind(Pop(out))
  {
    if out != [] {
      ChopText(Behind(Pop(out)), out[|out| - 1]);
    }
  }

  lemma PushNoSlash(out: seq<ByteSeq>, seg: ByteSeq)
    requires NoSlash(out) && SLASH !in seg
    ensures NoSlash(Push(out, seg))
  {
  }

  lemma JoinOne(seg: ByteSeq)
    ensures Join([seg]) == seg
  {
  }

  lemma JoinMore(segs: seq<ByteSeq>)
    requires |segs| > 1
    ensures Join(segs) == segs[0] + [SLASH] + Join(segs[1..])
  {
  }

  /** The last segment. */
  lemma LastStep(seg: ByteSeq, out: seq<ByteSeq>)
    requires SLASH !in seg && NoSlash(out)
    ensures Remove([SLASH] + seg, Behind(out)) == Behind(Ended(Push(out, seg), seg))
  {
    hide Behind, Chop;
    var s := [SLASH] + seg;
    if Dots(seg) {
      var kept := if IsDot(seg) then Behind(out) else Chop(Behind(out));
      ChopPops(out);
      LoneSlash(kept);
      BehindMore(Push(out, seg), []);
      assert kept + [SLASH] + [] == kept + [SLASH];
    } else {
      assert s[1..] == seg;
      assert forall i :: 1 <= i < |s| ==> s[i] == seg[i - 1];
      assert SegmentEnd(s) == |s|;
      assert s[..|s|] == s && s[|s|..] == [];
      Plainly(s, Behind(out));
      BehindMore(out, seg);
      assert Behind(out) + s == Behind(out) + [SLASH] + seg;
    }
  }

  lemma LoneSlash(out: ByteSeq)
    ensures Remove([SLASH], out) == out + [SLASH]
  {
    assert [SLASH][..1] == [SLASH] && [SLASH][1..] == [];
    assert Remove([], out + [SLASH]) == out + [SLASH];
  }

  /** The other steps that an input behind a slash may call for are those of a dot segment. */
  lemma DotsAhead(s: ByteSeq)
    requires s != [] && s[0] == SLASH
    ensures [SLASH, DOT, SLASH] <= s || s == [SLASH, DOT] ==> s[1..SegmentEnd(s)] == [DOT]
    ensures [SLASH, DOT, DOT, SLASH] <= s || s == [SLASH, DOT, DOT] ==> s[1..SegmentEnd(s)] == [DOT, DOT]
  {
    var n := SegmentEnd(s);
    if [SLASH, DOT, SLASH] <= s {
      assert s[1] == DOT && s[2] == SLASH;
      assert n == 2;
    } else if s == [SLASH, DOT] {
      assert s[1] == DOT;
      assert n == 2;
    }
    if [SLASH, DOT, DOT, SLASH] <= s {
      assert s[1] == DOT && s[2] == DOT && s[3] == SLASH;
      assert n == 3;
    } else if s == [SLASH, DOT, DOT] {
      assert s[1] == DOT && s[2] == DOT;
      assert n == 3;
    }
  }

  /** Step E, no other step applying. */
  lemma Plainly(s: ByteSeq, out: ByteSeq)
    requires s != [] && s[0] == SLASH && !Dots(s[1..SegmentEnd(s)])
    ensures Remove(s, out) == Remove(s[SegmentEnd(s)..], out + s[..SegmentEnd(s)])
  {
    hide SegmentEnd;
    DotsAhead(s);
  }

  /** Which step an input behind a slash calls for, when it begins with a dot segment and another slash. */
  lemma DotFirst(s: ByteSeq)
    requires |s| >= 3 && s[0] == SLASH && s[1] == DOT && s[2] == SLASH
    ensures [SLASH, DOT, SLASH] <= s && !([DOT, DOT, SLASH] <= s) && !([DOT, SLASH] <= s)
  {
  }

  lemma DotDotFirst(s: ByteSeq)
    requires |s| >= 4 && s[0] == SLASH && s[1] == DOT && s[2] == DOT && s[3] == SLASH
    ensures [SLASH, DOT, DOT, SLASH] <= s && !([DOT, DOT, SLASH] <= s) && !([DOT, SLASH] <= s)
    ensures !([SLASH, DOT, SLASH] <= s) && s != [SLASH, DOT]
  {
    assert [SLASH, DOT, SLASH][2] == SLASH;
  }

  lemma DotStep(more: ByteSeq, out: ByteSeq)
    ensures Remove([SLASH] + [DOT] + [SLASH] + more, out) == Remove([SLASH] + more, out)
  {
    var s := [SLASH] + [DOT] + [SLASH] + more;
    DotFirst(s);
    assert s[2..] == [SLASH] + more;
  }

  lemma DotDotStep(more: ByteSeq, out: ByteSeq)
    ensures Remove([SLASH] + [DOT, DOT] + [SLASH] + more, out) == Remove([SLASH] + more, Chop(out))
  {
    hide Chop;
    var s := [SLASH] + [DOT, DOT] + [SLASH] + more;
    DotDotFirst(s);
    assert s[3..] == [SLASH] + more;
  }

  lemma PlainStep(seg: ByteSeq, more: ByteSeq, out: ByteSeq)
    requires SLASH !in seg && !Dots(seg)
    ensures Remove([SLASH] + seg + [SLASH] + more, out) == Remove([SLASH] + more, out + [SLASH] + seg)
  {
    hide Remove;
    var s := [SLASH] + seg + [SLASH] + more;
    assert forall i :: 1 <= i < 1 + |seg| ==> s[i] == seg[i - 1];
    assert s[1 + |seg|] == SLASH;
    assert SegmentEnd(s) == 1 + |seg|;
    assert s[1..1 + |seg|] == seg && s[..1 + |seg|] == [SLASH] + seg && s[1 + |seg|..] == [SLASH] + more;
    Plainly(s, out);
    assert out + ([SLASH] + seg) == out + [SLASH] + seg;
  }

  /** Any other. */
  lemma NextStep(seg: ByteSeq, more: ByteSeq, out: seq<ByteSeq>)
    requires SLASH !in seg && NoSlash(out)
    ensures Remove([SLASH] + seg + [SLASH] + more, Behind(out)) == Remove([SLASH] + more, Behind(Push(out, seg)))
  {
    hide Behind, Chop, Remove;
    if IsDot(seg) {
      DotStep(more, Behind(out));
    } else if IsDotDot(seg) {
      ChopPops(out);
      DotDotStep(more, Behind(out));
    } else {
      PlainStep(seg, more, Behind(out));
      BehindMore(out, seg);
    }
  }

  lemma {:induction false} RemoveIs(segs: seq<ByteSeq>, out: seq<ByteSeq>)
    requires segs != [] && NoSlash(segs) && NoSlash(out)
    ensures Remove([SLASH] + Join(segs), Behind(out)) == Behind(Ended(Stack(out, segs), segs[|segs| - 1]))
    decreases |segs|
  {
    hide Remove, Behind, Join;
    var out' := Push(out, segs[0]);
    PushNoSlash(out, segs[0]);
    if |segs| == 1 {
      JoinOne(segs[0]);
      assert segs == [segs[0]];
      LastStep(segs[0], out);
      assert segs[1..] == [];
    } else {
      var more := segs[1..];
      JoinMore(segs);
      assert [SLASH] + Join(segs) == [SLASH] + segs[0] + [SLASH] + Join(more);
      NextStep(segs[0], Join(more), out);
      RemoveIs(more, out');
      assert more[|more| - 1] == segs[|segs| - 1];
    }
  }

  // ----- And what the client does

  lemma {:induction false} ReduceIs(out: seq<ByteSeq>, segs: seq<ByteSeq>)
    ensures Reduce([[]] + out, segs) == [[]] + Stack(out, segs)
    decreases |segs|
  {
    if segs != [] {
      var s := segs[0];
      assert Taken([[]] + out, s) == [[]] + Push(out, s) by {
        if IsDotDot(s) && out != [] {
          assert ([[]] + out)[..|out|] == [[]] + out[..|out| - 1];
        } else if !Dots(s) {
          assert [[]] + out + [s] == [[]] + (out + [s]);
        }
      }
      ReduceIs(Push(out, s), segs[1..]);
    }
  }

  lemma {:induction false} JoinIsBehind(segs: seq<ByteSeq>)
    ensures segs != [] ==> Join([[]] + segs) == Behind(segs)
    decreases |segs|
  {
    if segs != [] {
      var f, last := segs[..|segs| - 1], segs[|segs| - 1];
      assert [[]] + segs == ([[]] + f) + [last];
      JoinIsBehind(f);
      JoinLast([[]] + f, last);
      if f == [] {
        JoinOne([]);
        assert [[]] + f == [[]];
        assert segs[..0] == [];
      }
    }
  }

  lemma {:induction false} JoinLast(segs: seq<ByteSeq>, last: ByteSeq)
    requires segs != []
    ensures Join(segs + [last]) == Join(segs) + [SLASH] + last
    decreases |segs|
  {
    if |segs| == 1 {
      assert segs + [last] == [segs[0], last];
      assert [segs[0], last][1..] == [last];
    } else {
      assert (segs + [last])[1..] == segs[1..] + [last];
      JoinLast(segs[1..], last);
      var a, b := segs[0] + [SLASH], Join(segs[1..]);
      assert a + (b + [SLASH] + last) == a + b + [SLASH] + last;
    }
  }

  predicate EndsInTwoSlashes(p: ByteSeq) { |p| >= 2 && p[|p| - 1] == SLASH && p[|p| - 2] == SLASH }

  predicate EndsInDots(p: ByteSeq) { Dots(Split(p)[|Split(p)| - 1]) }

  lemma AbsoluteSplits(p: ByteSeq) returns (segs: seq<ByteSeq>)
    requires p != [] && p[0] == SLASH
    ensures segs != [] && NoSlash(segs) && p == [SLASH] + Join(segs) && Split(p) == [[]] + segs
  {
    segs := Split(p[1..]);
    SplitHasNoSlash(p[1..]);
    assert p == [SLASH] + p[1..];
    assert FindByte(p, 0, SLASH) == Some(0);
    assert p[..0] == [];
  }

  lemma ClosedIs(t: seq<ByteSeq>, last: ByteSeq)
    ensures Closed([[]] + t, last) == [[]] + if Dots(last) && t != [] && t[|t| - 1] != [] then t + [[]] else t
  {
    var out := [[]] + t;
    assert t != [] ==> out[|out| - 1] == t[|t| - 1];
    assert out + [[]] == [[]] + (t + [[]]);
  }

  /** What the client makes of the segments that are left. */
  lemma ClientJoins(t: seq<ByteSeq>, last: ByteSeq)
    requires NoSlash(t) && (!Dots(last) ==> t != [])
    ensures Rooted(Join(Closed([[]] + t, last)))
            == if t != [] && t[|t| - 1] == [] then Behind(t) else Behind(Ended(t, last))
  {
    hide Join, Behind, Rooted, Closed, NoSlash;
    ClosedIs(t, last);
    if t == [] {
      JoinsNothing();
      assert Closed([[]] + t, last) == [[]];
      assert Ended(t, last) == [[]];
    } else {
      JoinsRooted(t);
      JoinsRooted(t + [[]]);
    }
  }

  lemma JoinsRooted(t: seq<ByteSeq>)
    requires t != []
    ensures Rooted(Join([[]] + t)) == Behind(t)
  {
    hide Join, Behind;
    JoinIsBehind(t);
    BehindSlash(t);
  }

  lemma JoinsNothing()
    ensures Rooted(Join([[]])) == [SLASH] == Behind([[]]) && Ended([], [DOT]) == [[]] == Ended([], [DOT, DOT])
  {
    JoinOne([]);
    BehindMore([], []);
    BehindNothing();
  }

  lemma BehindNothing()
    ensures Behind([]) == []
  {
  }

  lemma {:induction false} BehindSlash(segs: seq<ByteSeq>)
    requires segs != []
    ensures Behind(segs) != [] && Behind(segs)[0] == SLASH
    decreases |segs|
  {
    if |segs| > 1 {
      BehindSlash(segs[..|segs| - 1]);
    } else {
      BehindNothing();
    }
  }

  lemma LastHasNone(t: seq<ByteSeq>)
    requires NoSlash(t) && t != []
    ensures SLASH !in t[|t| - 1]
  {
  }

  /** How the path of the algorithm ends. */
  lemma EndsSo(t: seq<ByteSeq>)
    requires NoSlash(t)
    ensures EndsInTwoSlashes(Behind(t + [[]])) <==> t != [] && t[|t| - 1] == []
  {
    hide *;
    BehindMore(t, []);
    if t == [] {
      BehindNothing();
      OneSlash();
    } else {
      LastHasNone(t);
      var f, last := t[..|t| - 1], t[|t| - 1];
      BehindMore(f, last);
      assert f + [last] == t;
      TwoSlashes(Behind(f), last);
    }
  }

  lemma OneSlash()
    ensures !EndsInTwoSlashes([] + [SLASH] + [])
  {
  }

  lemma TwoSlashes(a: ByteSeq, last: ByteSeq)
    requires SLASH !in last
    ensures EndsInTwoSlashes(a + [SLASH] + last + [SLASH] + []) <==> last == []
  {
    var s := a + [SLASH] + last + [SLASH] + [];
    assert s[|s| - 1] == SLASH;
    if last != [] {
      assert s[|s| - 2] == last[|last| - 1];
    } else {
      assert s[|s| - 2] == SLASH;
    }
  }

  lemma {:induction false} StackKeeps(out: seq<ByteSeq>, segs: seq<ByteSeq>)
    requires NoSlash(out) && NoSlash(segs)
    ensures NoSlash(Stack(out, segs))
    ensures segs != [] && !Dots(segs[|segs| - 1]) ==> Stack(out, segs) != []
    decreases |segs|
  {
    if segs != [] {
      PushNoSlash(out, segs[0]);
      StackKeeps(Push(out, segs[0]), segs[1..]);
    }
  }

  /** For every absolute path the client computes what section 5.2.4 of RFC 3986 does, unless the path
      ends in a dot segment and, by the algorithm, comes to one that ends in two slashes: then it has one
      slash fewer. */
  lemma AsRfcExactly(p: ByteSeq)
    requires p != [] && p[0] == SLASH
    ensures var r := Remove(p, []);
            && (RemoveDots(p) == r <==> !(EndsInDots(p) && EndsInTwoSlashes(r)))
            && (RemoveDots(p) != r ==> r == RemoveDots(p) + [SLASH])
  {
    hide Remove, RemoveDots, Behind, Stack, Join, Reduce, Rooted;
    var segs := AbsoluteSplits(p);
    var t, last := Stack([], segs), segs[|segs| - 1];
    BehindNothing();
    RemoveIs(segs, []);
    StackKeeps([], segs);
    ClientIs(p, segs);
    ClientJoins(t, last);
    EndsSo(t);
    BehindMore(t, []);
    assert Behind(t) + [SLASH] + [] == Behind(t) + [SLASH];
    assert Split(p)[|Split(p)| - 1] == last;
  }

  lemma ClientIs(p: ByteSeq, segs: seq<ByteSeq>)
    requires segs != [] && Split(p) == [[]] + segs
    ensures RemoveDots(p) == Rooted(Join(Closed([[]] + Stack([], segs), segs[|segs| - 1])))
  {
    hide Join, Rooted, Stack;
    var none: seq<ByteSeq>, root: seq<ByteSeq> := [], [[]];
    ReduceIs(none, segs);
    assert root + none == root == none + root;
    assert (root + segs)[1..] == segs;
    assert Reduce(none, root + segs) == Reduce(root, segs);
  }

  lemma DotLast(out: ByteSeq)
    ensures Remove([SLASH, DOT], out) == out + [SLASH]
  {
    var s: ByteSeq := [SLASH, DOT];
    LoneSlash(out);
    assert s[0] == SLASH && |s| == 2;
    assert !([DOT, DOT, SLASH] <= s) && !([DOT, SLASH] <= s) && !([SLASH, DOT, SLASH] <= s);
  }

  lemma SplitSlash(q: ByteSeq)
    ensures Split([SLASH] + q) == [[]] + Split(q)
  {
    var s := [SLASH] + q;
    FirstSlash(s, 0);
    assert s[..0] == [] && s[1..] == q;
  }

  lemma SplitsSo()
    ensures Split([SLASH, SLASH, DOT]) == [[], [], [DOT]]
  {
    hide Split;
    assert [SLASH, SLASH, DOT] == [SLASH] + ([SLASH] + [DOT]);
    SplitSlash([SLASH] + [DOT]);
    SplitSlash([DOT]);
    SplitJoin([[DOT]]);
    JoinOne([DOT]);
    var empty: ByteSeq := [];
    assert [empty] + ([empty] + [[DOT]]) == [empty, empty, [DOT]];
  }

  /** Where they part: the smallest of those paths. */
  lemma OneSlashFewer()
    ensures RemoveDots([SLASH, SLASH, DOT]) == [SLASH] && Remove([SLASH, SLASH, DOT], []) == [SLASH, SLASH]
  {
    hide RemoveDots, Split;
    var p := [SLASH, SLASH, DOT];
    assert p[1..] == [SLASH, DOT] && p[..1] == [SLASH] && [] + [SLASH] == [SLASH];
    assert SegmentEnd(p) == 1;
    Plainly(p, []) by {
      assert p[1..1] == [];
    }
    DotLast([SLASH]);
    SplitsSo();
    AsRfcExactly(p);
    assert Remove(p, []) == [SLASH] + [SLASH];
    assert RemoveDots(p) + [SLASH] == [SLASH] + [SLASH];
    assert (RemoveDots(p) + [SLASH])[..1] == [SLASH];
  }
}
