/** The ranges of an ACK frame (section 19.3.1 of RFC 9000): a chain of gaps and lengths, largest
    first. */
module QuicAck {
  import opened Bytes
  import opened QuicFrame
  import opened QuicRead
  import Cursor
  import Varint

  type PacketNumber = v: nat | v <= Varint.VARINT_MAX

  /** Packet numbers acknowledged together, both ends included. */
  datatype Range = Range(largest: PacketNumber, smallest: PacketNumber)

  // ----- Walking a frame

  datatype Iter = Iter(rest: ByteSeq, remaining: nat, largest: nat, firstRange: nat, next: nat, first: bool,
                       bad: bool)

  function Begin(f: Frame): Option<Iter> {
    if !f.Ack? || f.firstRange > f.largest then None
    else Some(Iter(f.ranges.data, f.ranges.count, f.largest, f.firstRange, 0, true, false))
  }

  /** An iterator that was begun on a frame whose numbers came off the wire. */
  predicate IterOk(it: Iter) {
    it.firstRange <= it.largest <= Varint.VARINT_MAX && it.next <= Varint.VARINT_MAX
  }

  /** The next range, if there is one. */
  function Next(it: Iter): (r: (Iter, Option<Range>))
    requires IterOk(it)
    ensures IterOk(r.0)
    ensures r.1.Some? ==> r.0.remaining + (if r.0.first then 1 else 0) < it.remaining + (if it.first then 1 else 0)
  {
    if it.bad then (it, None)
    else if it.first then
      var low := it.largest - it.firstRange;
      (it.(first := false, next := low), Some(Range(it.largest, low)))
    else if it.remaining == 0 then (it, None)
    else
      var it := it.(remaining := it.remaining - 1);
      match RdV2(it.rest)
      case None => (it.(bad := true), None)
      case Some((gap, len, rest)) =>
        var it := it.(rest := rest);
        if it.next < gap + 2 || it.next - gap - 2 < len then (it.(bad := true), None)
        else
          var high := it.next - gap - 2;
          (it.(next := high - len), Some(Range(high, high - len)))
  }

  /** All the ranges an iterator gives, and whether it ended because the list was malformed. */
  function Collect(it: Iter): (seq<Range>, bool)
    requires IterOk(it)
    decreases it.remaining + (if it.first then 1 else 0)
  {
    var (it', r) := Next(it);
    match r
    case None => ([], it'.bad)
    case Some(range) => var (more, bad) := Collect(it'); ([range] + more, bad)
  }

  /** Ranges as an ACK may list them: each the right way up, each below the one before with at least
      one number between them. */
  predicate Descending(rs: seq<Range>) {
    && (forall i :: 0 <= i < |rs| ==> rs[i].smallest <= rs[i].largest)
    && (forall i :: 0 < i < |rs| ==> rs[i].largest + 2 <= rs[i - 1].smallest)
  }

  lemma NextBelow(it: Iter)
    requires IterOk(it)
    ensures var (it', r) := Next(it);
            r.Some? ==> && r.value.smallest <= r.value.largest && it'.next == r.value.smallest && !it'.first
                        && !it'.bad
                        && (!it.first ==> r.value.largest + 2 <= it.next)
                        && (it.first ==> r.value.largest == it.largest)
  {
    hide RdV2;
  }

  /** Whatever the bytes: the ranges come strictly downwards and never touch, the first from the
      largest number acknowledged, and there are at most one more of them than the frame counts. */
  lemma {:induction false} IterationDescends(it: Iter)
    requires IterOk(it) && !it.bad
    ensures var rs := Collect(it).0;
            && Descending(rs) && |rs| <= it.remaining + (if it.first then 1 else 0)
            && (rs != [] ==> if it.first then rs[0].largest == it.largest else rs[0].largest + 2 <= it.next)
    decreases it.remaining + (if it.first then 1 else 0)
  {
    hide Next;
    NextBelow(it);
    var (it', r) := Next(it);
    if r.Some? {
      IterationDescends(it');
      var more := Collect(it').0;
      var rs := Collect(it).0;
      assert rs == [r.value] + more;
      forall i | 0 < i < |rs| ensures rs[i].largest + 2 <= rs[i - 1].smallest {
        assert rs[i] == more[i - 1];
        assert i > 1 ==> rs[i - 1] == more[i - 2];
      }
    }
  }

  // ----- What any pairs say

  /** Gaps and lengths as they travel. */
  function PairBytes(ps: seq<(nat, nat)>): ByteSeq {
    if ps == [] then [] else V(ps[0].0) + V(ps[0].1) + PairBytes(ps[1..])
  }

  /** The lowest number acknowledged by `i` pairs below `next`, if there were negative ones. */
  function Depth(next: int, ps: seq<(nat, nat)>, i: nat): int
    requires i <= |ps|
  {
    if i == 0 then next else Depth(next, ps, i - 1) - ps[i - 1].0 - 2 - ps[i - 1].1
  }

  /** A range for every pair, as far as they reach: from below the gap, by the length. */
  predicate Spans(rs: seq<Range>, next: int, ps: seq<(nat, nat)>) {
    && |rs| <= |ps|
    && forall i :: 0 <= i < |rs| ==>
         rs[i].largest == Depth(next, ps, i) - ps[i].0 - 2 && rs[i].smallest == Depth(next, ps, i + 1)
  }

  lemma {:induction false} DepthNext(next: int, ps: seq<(nat, nat)>, i: nat)
    requires ps != [] && i < |ps|
    ensures Depth(next, ps, i + 1) == Depth(next - ps[0].0 - 2 - ps[0].1, ps[1..], i)
  {
    if i > 0 {
      DepthNext(next, ps, i - 1);
    } else {
      assert Depth(next, ps, 0) == next;
    }
  }

  lemma {:induction false} DepthFalls(next: int, ps: seq<(nat, nat)>, i: nat)
    requires i <= |ps|
    ensures Depth(next, ps, i) <= next
  {
    if i > 0 {
      DepthFalls(next, ps, i - 1);
    }
  }

  lemma PairNext(it: Iter, ps: seq<(nat, nat)>)
    requires IterOk(it) && !it.bad && !it.first && it.remaining > 0 && ps != [] && it.rest == PairBytes(ps)
    requires Fits(ps[0].0) && Fits(ps[0].1)
    ensures var low := it.next - ps[0].0 - 2 - ps[0].1;
            var (it', r) := Next(it);
            && (low < 0 ==> r.None? && it'.bad)
            && (low >= 0 ==> r == Some(Range(low + ps[0].1, low)) && it'.next == low && !it'.bad && !it'.first
                              && it'.remaining == it.remaining - 1 && it'.rest == PairBytes(ps[1..]))
  {
    hide V, RdV2;
    ReadV2(ps[0].0, ps[0].1, PairBytes(ps[1..]));
  }

  lemma NoPairs(it: Iter)
    requires IterOk(it) && !it.bad && !it.first && it.rest == []
    ensures Next(it).1.None? && (Next(it).0.bad <==> it.remaining > 0)
  {
    assert RdV2([]).None?;
  }

  /** What walking `n` pairs of a list comes to. */
  predicate Walks(rs: seq<Range>, bad: bool, next: int, ps: seq<(nat, nat)>, n: nat) {
    && Spans(rs, next, ps) && |rs| <= n
    && (bad <==> n > |ps| || Depth(next, ps, n) < 0)
    && (!bad ==> |rs| == n)
    && (bad && |rs| < |ps| ==> Depth(next, ps, |rs| + 1) < 0)
  }

  lemma WalksNone(next: int, ps: seq<(nat, nat)>, n: nat)
    requires next >= 0 && (ps == [] || n == 0)
    ensures Walks([], n > 0, next, ps, n)
  {
  }

  lemma WalkStops(next: int, ps: seq<(nat, nat)>, n: nat)
    requires ps != [] && n > 0 && next - ps[0].0 - 2 - ps[0].1 < 0
    ensures Walks([], true, next, ps, n)
  {
    DepthNext(next, ps, 0);
    if n <= |ps| {
      DepthNext(next, ps, n - 1);
      DepthFalls(next - ps[0].0 - 2 - ps[0].1, ps[1..], n - 1);
    }
  }

  lemma WalkGoesOn(r: Range, rest: seq<Range>, bad: bool, next: int, ps: seq<(nat, nat)>, n: nat)
    requires ps != [] && n > 0 && var low := next - ps[0].0 - 2 - ps[0].1;
             r.smallest == low && r.largest == low + ps[0].1 && Walks(rest, bad, low, ps[1..], n - 1)
    ensures Walks([r] + rest, bad, next, ps, n)
  {
    hide Spans, Depth;
    SpansMore(r, rest, next, ps);
    SpansFit(rest, next - ps[0].0 - 2 - ps[0].1, ps[1..]);
    if n <= |ps| {
      DepthNext(next, ps, n - 1);
    }
    if |rest| < |ps[1..]| {
      DepthNext(next, ps, |rest| + 1);
    }
  }

  lemma SpansFit(rs: seq<Range>, next: int, ps: seq<(nat, nat)>)
    requires Spans(rs, next, ps)
    ensures |rs| <= |ps|
  {
  }

  /** Any pairs at all, after the first range: each is a range below the last, until they are used up or
      would go below zero; and the walk ends badly if and only if there are fewer than were counted or
      those counted go below zero. */
  lemma {:induction false} WalksExactly(it: Iter, ps: seq<(nat, nat)>)
    requires IterOk(it) && !it.bad && !it.first && it.rest == PairBytes(ps)
    requires forall i :: 0 <= i < |ps| ==> Fits(ps[i].0) && Fits(ps[i].1)
    ensures Walks(Collect(it).0, Collect(it).1, it.next, ps, it.remaining)
    decreases it.remaining
  {
    hide Next, PairBytes, V, Walks;
    if ps == [] || it.remaining == 0 {
      if ps == [] {
        NoBytes();
        NoPairs(it);
      } else {
        NothingLeft(it);
      }
      WalksNone(it.next, ps, it.remaining);
    } else {
      PairNext(it, ps);
      if it.next - ps[0].0 - 2 - ps[0].1 < 0 {
        WalkStops(it.next, ps, it.remaining);
      } else {
        var it' := Next(it).0;
        WalksExactly(it', ps[1..]);
        WalkGoesOn(Next(it).1.value, Collect(it').0, Collect(it').1, it.next, ps, it.remaining);
      }
    }
  }

  lemma NoBytes()
    ensures PairBytes([]) == []
  {
  }

  lemma NothingLeft(it: Iter)
    requires IterOk(it) && !it.bad && !it.first && it.remaining == 0
    ensures Next(it) == (it, None)
  {
  }

  lemma SpansMore(r: Range, rest: seq<Range>, next: int, ps: seq<(nat, nat)>)
    requires ps != [] && var low := next - ps[0].0 - 2 - ps[0].1;
             r.smallest == low && r.largest == low + ps[0].1 && Spans(rest, low, ps[1..])
    ensures Spans([r] + rest, next, ps)
  {
    var rs := [r] + rest;
    forall i | 0 <= i < |rs|
      ensures rs[i].largest == Depth(next, ps, i) - ps[i].0 - 2 && rs[i].smallest == Depth(next, ps, i + 1)
    {
      DepthNext(next, ps, i);
      if i > 0 {
        DepthNext(next, ps, i - 1);
        assert rs[i] == rest[i - 1];
      }
    }
  }

  // ----- Building one

  /** The gap between two ranges, and the length of the second. */
  function Pair(a: Range, b: Range): ByteSeq
    requires b.smallest <= b.largest && b.largest + 2 <= a.smallest
  {
    V(a.smallest - b.largest - 2) + V(b.largest - b.smallest)
  }

  /** The gap and length pairs of the ranges after the first. */
  function Pairs(rs: seq<Range>): ByteSeq
    requires Descending(rs)
  {
    if |rs| < 2 then []
    else
      var more := rs[1..];
      assert forall i :: 0 <= i < |more| ==> more[i] == rs[i + 1];
      Pair(rs[0], rs[1]) + Pairs(more)
  }

  /** The frame for some ranges, refused unless they descend without touching and their pairs fit
      `room` bytes. */
  function Build(rs: seq<Range>, delay: nat, ecn: Option<Ecn>, room: nat): Option<Frame> {
    if rs == [] || !Descending(rs) || |Pairs(rs)| > room then None
    else Some(Ack(rs[0].largest, delay, rs[0].largest - rs[0].smallest, Ranges(|rs| - 1, Pairs(rs)), ecn))
  }

  lemma {:induction false} PairsSize(rs: seq<Range>)
    requires Descending(rs)
    ensures |Pairs(rs)| <= 16 * |rs|
  {
    hide Varint.Encode;
    if |rs| >= 2 {
      assert Descending(rs[1..]) by {
        assert forall i :: 0 <= i < |rs| - 1 ==> rs[1..][i] == rs[i + 1];
      }
      PairsSize(rs[1..]);
    }
  }

  /** An iterator part of the way down the pairs of `rs`, about to give `rs[1]`. */
  function Midway(rs: seq<Range>, largest: nat, firstRange: nat): Iter
    requires rs != [] && Descending(rs)
  {
    Iter(Pairs(rs), |rs| - 1, largest, firstRange, rs[0].smallest, false, false)
  }

  lemma {:induction false} PairsWalk(rs: seq<Range>, largest: nat, firstRange: nat)
    requires rs != [] && Descending(rs) && firstRange <= largest <= Varint.VARINT_MAX
    ensures Collect(Midway(rs, largest, firstRange)) == (rs[1..], false)
    decreases |rs|
  {
    hide V, RdV2;
    var it := Midway(rs, largest, firstRange);
    if |rs| >= 2 {
      var more := rs[1..];
      assert Descending(more) by {
        assert forall i :: 0 <= i < |more| ==> more[i] == rs[i + 1];
      }
      ReadV2(rs[0].smallest - rs[1].largest - 2, rs[1].largest - rs[1].smallest, Pairs(more));
      assert Next(it) == (Midway(more, largest, firstRange), Some(rs[1]));
      PairsWalk(more, largest, firstRange);
      assert [rs[1]] + more[1..] == more;
    } else {
      assert rs[1..] == [];
    }
  }

  /** Walking an ACK that was built gives back the ranges it was built from, and nothing else. */
  lemma BuiltWalksBack(rs: seq<Range>, delay: nat, ecn: Option<Ecn>, room: nat)
    requires Build(rs, delay, ecn, room).Some?
    ensures var it := Begin(Build(rs, delay, ecn, room).value);
            it.Some? && IterOk(it.value) && Collect(it.value) == (rs, false)
  {
    hide V, RdV2, Pairs;
    var it := Begin(Build(rs, delay, ecn, room).value).value;
    var mid := Midway(rs, rs[0].largest, rs[0].largest - rs[0].smallest);
    assert Next(it) == (mid, Some(rs[0]));
    PairsWalk(rs, rs[0].largest, rs[0].largest - rs[0].smallest);
    assert [rs[0]] + rs[1..] == rs;
  }

  /** Ranges can be acknowledged exactly when there are any and they descend without touching, given
      the room the caller is told to leave. */
  lemma BuildsExactly(rs: seq<Range>, delay: nat, ecn: Option<Ecn>, room: nat)
    requires room >= 20 * |rs|
    ensures Build(rs, delay, ecn, room).Some? <==> rs != [] && Descending(rs)
  {
    hide Pairs;
    if Descending(rs) {
      PairsSize(rs);
    }
  }

  lemma {:induction false} PairsSkip(rs: seq<Range>)
    requires rs != [] && Descending(rs)
    ensures SkipPairs(Pairs(rs), |rs| - 1) == Some([])
    decreases |rs|
  {
    hide V, RdV2;
    if |rs| >= 2 {
      var more := rs[1..];
      assert Descending(more) by {
        assert forall i :: 0 <= i < |more| ==> more[i] == rs[i + 1];
      }
      ReadV2(rs[0].smallest - rs[1].largest - 2, rs[1].largest - rs[1].smallest, Pairs(more));
      PairsSkip(more);
    }
  }

  /** From ranges to ranges: built into a frame, written into a packet, read off it and walked. */
  lemma AckArrives(rs: seq<Range>, delay: nat, ecn: Option<Ecn>, room: nat, rest: ByteSeq)
    requires Build(rs, delay, ecn, room).Some? && Encodable(Build(rs, delay, ecn, room).value)
    ensures var f := Build(rs, delay, ecn, room).value;
            && Decode(Encode(f).value + rest) == Some((f, rest))
            && Begin(f).Some? && IterOk(Begin(f).value) && Collect(Begin(f).value) == (rs, false)
  {
    hide Pairs, Encode, Decode, Collect;
    PairsSkip(rs);
    BuiltWalksBack(rs, delay, ecn, room);
    RoundTrip(Build(rs, delay, ecn, room).value, rest);
  }

  // ----- As it runs

  class AckIter {
    const rd: Cursor.Reader
    var remaining: nat
    var largest: nat
    var firstRange: nat
    var next: nat
    var first: bool
    var bad: bool

    ghost predicate Valid()
      reads this, rd
    {
      rd.Valid() && (!bad ==> !rd.bad) && IterOk(View())
    }

    ghost function View(): Iter
      requires rd.Valid()
      reads this, rd
    {
      Iter(rd.Rest(), remaining, largest, firstRange, next, first, bad)
    }

    constructor (f: Frame)
      requires Begin(f).Some? && IterOk(Begin(f).value)
      ensures Valid() && View() == Begin(f).value && fresh(rd)
    {
      rd := new Cursor.Reader(f.ranges.data);
      remaining, largest, firstRange, next, first, bad := f.ranges.count, f.largest, f.firstRange, 0, true, false;
    }

    /** Gives the next range, and goes no lower than zero to find it. */
    method NextRange() returns (r: Option<Range>)
      requires Valid()
      modifies this, rd
      ensures Valid() && r == Next(old(View())).1 && bad == Next(old(View())).0.bad
      ensures !bad ==> View() == Next(old(View())).0
    {
      hide RdV2;
      if bad {
        return None;
      }
      if first {
        first := false;
        next := largest - firstRange;
        return Some(Range(largest, next));
      }
      if remaining == 0 {
        return None;
      }
      remaining := remaining - 1;
      var gap, len := TakeV2(rd);
      if rd.bad {
        bad := true;
        return None;
      }
      if next < gap + 2 {
        bad := true;
        return None;
      }
      var high := next - gap - 2;
      if high < len {
        bad := true;
        return None;
      }
      next := high - len;
      return Some(Range(high, next));
    }
  }

  method PutPair(wr: Cursor.Writer, a: nat, b: nat)
    requires wr.Valid() && QuicFrame.Fits(a) && QuicFrame.Fits(b)
    modifies wr, wr.buf
    ensures wr.Valid() && !wr.bad == old(wr.Fits(|V(a) + V(b)|))
    ensures !wr.bad ==> wr.Written() == old(wr.Written()) + (V(a) + V(b))
  {
    hide Varint.Encode;
    wr.PutVarint(a);
    wr.PutVarint(b);
  }

  /** Builds the frame, writing its pairs into the caller's buffer. */
  method AckBuild(rs: seq<Range>, delay: nat, ecn: Option<Ecn>, buf: array<Byte>) returns (f: Option<Frame>)
    modifies buf
    ensures f == Build(rs, delay, ecn, buf.Length)
  {
    hide Pairs, V;
    if |rs| == 0 || rs[0].smallest > rs[0].largest {
      return None;
    }
    var wr := new Cursor.Writer(buf);
    var i := 1;
    OneRange(rs[..1]);
    while i < |rs|
      invariant 1 <= i <= |rs| && Descending(rs[..i]) && wr.Valid() && wr.buf == buf && fresh(wr)
      invariant !wr.bad <==> |Pairs(rs[..i])| <= buf.Length
      invariant !wr.bad ==> wr.Written() == Pairs(rs[..i])
    {
      if rs[i].smallest > rs[i].largest || rs[i].largest + 2 > rs[i - 1].smallest {
        assert !Descending(rs);
        return None;
      }
      PairsAppend(rs[..i], rs[i]);
      assert rs[..i + 1] == rs[..i] + [rs[i]];
      PutPair(wr, rs[i - 1].smallest - rs[i].largest - 2, rs[i].largest - rs[i].smallest);
      i := i + 1;
    }
    assert rs[..i] == rs;
    if wr.bad {
      return None;
    }
    var data := buf[..wr.pos];
    return Some(Ack(rs[0].largest, delay, rs[0].largest - rs[0].smallest, Ranges(|rs| - 1, data), ecn));
  }

  lemma OneRange(rs: seq<Range>)
    requires |rs| == 1 && rs[0].smallest <= rs[0].largest
    ensures Descending(rs) && Pairs(rs) == []
  {
  }

  lemma {:induction false} PairsAppend(rs: seq<Range>, r: Range)
    requires rs != [] && Descending(rs) && r.smallest <= r.largest && r.largest + 2 <= rs[|rs| - 1].smallest
    ensures Descending(rs + [r])
    ensures Pairs(rs + [r]) == Pairs(rs) + Pair(rs[|rs| - 1], r)
  {
    hide Pair;
    var all := rs + [r];
    if |rs| >= 2 {
      var more := rs[1..];
      assert Descending(more) by {
        assert forall i :: 0 <= i < |more| ==> more[i] == rs[i + 1];
      }
      PairsAppend(more, r);
      assert all[1..] == more + [r];
      assert Pairs(all) == Pair(rs[0], rs[1]) + Pairs(more + [r]);
    } else {
      assert all[1..] == [r];
      assert Pairs([r]) == [];
    }
  }
}
