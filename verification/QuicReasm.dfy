/** Reassembly of a byte stream that arrives out of order, in pieces that may overlap, repeat and go
    missing. */
module QuicReasm {
  import opened Bytes

  const MAX_RANGES := 16
  const FIRST_SIZE := 1024

  /** Stream offsets held, from `off` up to but not including `end`. */
  datatype Range = Range(off: nat, end: nat)

  /** In order, none empty, and none touching the next. */
  predicate Sorted(rs: seq<Range>) {
    && (forall k :: 0 <= k < |rs| ==> rs[k].off < rs[k].end)
    && (forall k, l :: 0 <= k < l < |rs| ==> rs[k].end < rs[l].off)
  }

  predicate Covered(rs: seq<Range>, x: nat) { exists k :: 0 <= k < |rs| && rs[k].off <= x < rs[k].end }

  // ----- Merging a range in

  /** How many ranges end before `off`. */
  function Before(rs: seq<Range>, off: nat): (i: nat)
    ensures i <= |rs| && forall k :: 0 <= k < i ==> rs[k].end < off
    ensures i < |rs| ==> rs[i].end >= off
  {
    if rs == [] || rs[0].end >= off then 0 else 1 + Before(rs[1..], off)
  }

  /** The range that `[lo, hi)` makes with those from `j` on that it reaches, and where they stop. */
  function Absorb(rs: seq<Range>, j: nat, lo: nat, hi: nat): (Range, nat)
    requires j <= |rs|
    decreases |rs| - j
  {
    if j < |rs| && rs[j].off <= hi
    then Absorb(rs, j + 1, if rs[j].off < lo then rs[j].off else lo, if rs[j].end > hi then rs[j].end else hi)
    else (Range(lo, hi), j)
  }

  /** The ranges with `[off, end)` merged in, unless it stands alone and there is no room. */
  function Merge(rs: seq<Range>, off: nat, end: nat): seq<Range> {
    var i := Before(rs, off);
    var (m, j) := Absorb(rs, i, off, end);
    if j == i && |rs| >= MAX_RANGES then rs
    else if j <= |rs| then rs[..i] + [m] + rs[j..] else rs
  }

  /** What absorbing keeps, while `[lo, hi)` already covers `[off, end)` and the ranges from `i` to
      `j`. */
  lemma {:induction false} AbsorbIs(rs: seq<Range>, i: nat, j: nat, off: nat, end: nat, lo: nat, hi: nat, x: nat)
    requires Sorted(rs) && i <= j <= |rs| && off < end && lo <= off && end <= hi
    requires forall k :: i <= k < |rs| ==> rs[k].end >= off
    requires lo <= x < hi <==> off <= x < end || Covered(rs[i..j], x)
    requires forall k :: 0 <= k < i ==> rs[k].end < lo
    ensures var (m, n) := Absorb(rs, j, lo, hi);
            && j <= n <= |rs| && m.off <= off && end <= m.end
            && (m.off <= x < m.end <==> off <= x < end || Covered(rs[i..n], x))
            && (forall k :: n <= k < |rs| ==> m.end < rs[k].off)
            && (forall k :: 0 <= k < i ==> rs[k].end < m.off)
    decreases |rs| - j
  {
    if j < |rs| && rs[j].off <= hi {
      var lo' := if rs[j].off < lo then rs[j].off else lo;
      var hi' := if rs[j].end > hi then rs[j].end else hi;
      CoveredNext(rs, i, j, x);
      assert lo' <= x < hi' <==> (lo <= x < hi || rs[j].off <= x < rs[j].end);
      AbsorbIs(rs, i, j + 1, off, end, lo', hi', x);
    }
  }

  lemma CoveredNext(rs: seq<Range>, i: nat, j: nat, x: nat)
    requires i <= j < |rs|
    ensures Covered(rs[i..j + 1], x) <==> Covered(rs[i..j], x) || rs[j].off <= x < rs[j].end
  {
    var a, b := rs[i..j], rs[i..j + 1];
    assert b == a + [rs[j]];
    if Covered(a, x) {
      var k :| 0 <= k < |a| && a[k].off <= x < a[k].end;
      assert b[k] == a[k];
    }
    assert b[j - i] == rs[j];
  }

  lemma CoveredParts(rs: seq<Range>, i: nat, j: nat, x: nat)
    requires i <= j <= |rs|
    ensures Covered(rs, x) <==> Covered(rs[..i], x) || Covered(rs[i..j], x) || Covered(rs[j..], x)
  {
    if Covered(rs, x) {
      var k :| 0 <= k < |rs| && rs[k].off <= x < rs[k].end;
      if k < i {
        assert rs[..i][k] == rs[k];
      } else if k < j {
        assert rs[i..j][k - i] == rs[k];
      } else {
        assert rs[j..][k - j] == rs[k];
      }
    }
  }

  lemma CoveredOne(m: Range, x: nat)
    ensures Covered([m], x) <==> m.off <= x < m.end
  {
    assert [m][0] == m;
  }

  /** A range that would stand alone is dropped when the list is full. */
  predicate Dropped(rs: seq<Range>, off: nat, end: nat) {
    var i := Before(rs, off);
    Absorb(rs, i, off, end).1 == i && |rs| >= MAX_RANGES
  }

  /** Merging keeps the list in order and within its size, and adds to what is covered exactly the
      range merged in. */
  lemma MergeIs(rs: seq<Range>, off: nat, end: nat, x: nat)
    requires Sorted(rs) && off < end && |rs| <= MAX_RANGES
    ensures var ms := Merge(rs, off, end);
            && Sorted(ms) && |ms| <= 16
            && (Dropped(rs, off, end) ==> ms == rs)
            && (!Dropped(rs, off, end) ==> (Covered(ms, x) <==> Covered(rs, x) || off <= x < end))
  {
    var i := Before(rs, off);
    FromHere(rs, i, off);
    assert rs[i..i] == [];
    AbsorbIs(rs, i, i, off, end, off, end, x);
    var (m, j) := Absorb(rs, i, off, end);
    var ms := Merge(rs, off, end);
    if !Dropped(rs, off, end) {
      assert ms == rs[..i] + [m] + rs[j..];
      Spliced(rs, i, j, m);
      CoveredParts(rs, i, j, x);
      CoveredParts(ms, i, i + 1, x);
      assert ms[..i] == rs[..i] && ms[i..i + 1] == [m] && ms[i + 1..] == rs[j..];
      CoveredOne(m, x);
    }
  }

  /** Every byte of a piece is held. */
  ghost predicate AllHeld(rs: seq<Range>, off: nat, end: nat) {
    forall x: nat :: off <= x < end ==> Covered(rs, x)
  }

  /** What is dropped is exactly what touches nothing in a full list. */
  lemma DroppedMeans(rs: seq<Range>, off: nat, end: nat)
    requires Sorted(rs) && off < end
    ensures Dropped(rs, off, end) <==>
            |rs| >= 16 && forall k :: 0 <= k < |rs| ==> rs[k].end < off || end < rs[k].off
  {
    var i := Before(rs, off);
    AbsorbMoves(rs, i, off, end);
    if i < |rs| && end < rs[i].off {
      assert forall k :: i < k < |rs| ==> rs[i].end < rs[k].off;
    }
  }

  lemma {:induction false} AbsorbMoves(rs: seq<Range>, j: nat, lo: nat, hi: nat)
    requires j <= |rs|
    ensures Absorb(rs, j, lo, hi).1 >= j
    ensures Absorb(rs, j, lo, hi).1 == j <==> j == |rs| || hi < rs[j].off
    decreases |rs| - j
  {
    if j < |rs| && rs[j].off <= hi {
      AbsorbMoves(rs, j + 1, if rs[j].off < lo then rs[j].off else lo, if rs[j].end > hi then rs[j].end else hi);
    }
  }

  /** A piece is held after it has been merged in if and only if it was not dropped. */
  lemma HeldExactly(rs: seq<Range>, off: nat, end: nat)
    requires Sorted(rs) && off < end && |rs| <= MAX_RANGES
    ensures AllHeld(Merge(rs, off, end), off, end) <==> !Dropped(rs, off, end)
  {
    hide Merge, Dropped, Sorted;
    if Dropped(rs, off, end) {
      MergeIs(rs, off, end, off);
      DroppedMeans(rs, off, end);
      assert !Covered(rs, off);
    } else {
      forall x: nat | off <= x < end ensures Covered(Merge(rs, off, end), x) {
        MergeIs(rs, off, end, x);
      }
    }
  }

  /** Sixteen single bytes, each one byte from the next, above a byte that is missing. */
  function Islands(base: nat): (rs: seq<Range>)
    ensures |rs| == MAX_RANGES
  {
    seq(MAX_RANGES, i requires 0 <= i < MAX_RANGES => Range(base + 2 * i + 2, base + 2 * i + 3))
  }

  /** Even the very byte the reader waits for can be dropped. */
  lemma NextByteDropped(base: nat)
    ensures Sorted(Islands(base)) && Dropped(Islands(base), base, base + 1)
    ensures !Covered(Merge(Islands(base), base, base + 1), base)
  {
    hide Merge, Dropped, Before, Absorb;
    var rs := Islands(base);
    assert Sorted(rs);
    DroppedMeans(rs, base, base + 1);
    MergeIs(rs, base, base + 1, base);
  }

  lemma FromHere(rs: seq<Range>, i: nat, off: nat)
    requires Sorted(rs) && i <= |rs| && (i < |rs| ==> rs[i].end >= off)
    ensures forall k :: i <= k < |rs| ==> rs[k].end >= off
  {
  }

  lemma Spliced(rs: seq<Range>, i: nat, j: nat, m: Range)
    requires Sorted(rs) && i <= j <= |rs| && m.off < m.end
    requires forall k :: j <= k < |rs| ==> m.end < rs[k].off
    requires forall k :: 0 <= k < i ==> rs[k].end < m.off
    ensures Sorted(rs[..i] + [m] + rs[j..])
  {
    var ms := rs[..i] + [m] + rs[j..];
    assert forall k :: 0 <= k < |ms| ==> ms[k] == if k < i then rs[k] else if k == i then m else rs[k - i - 1 + j];
  }

  // ----- The buffer

  predicate Inside(rs: seq<Range>, base: nat, len: nat) {
    forall k :: 0 <= k < |rs| ==> base <= rs[k].off && rs[k].end - base <= len
  }

  lemma {:induction false} AbsorbAbove(rs: seq<Range>, j: nat, lo: nat, hi: nat, base: nat, len: nat)
    requires j <= |rs| && Inside(rs, base, len) && base <= lo < hi
    ensures var (m, n) := Absorb(rs, j, lo, hi);
            j <= n <= |rs| && base <= m.off <= lo && hi <= m.end
    decreases |rs| - j
  {
    if j < |rs| && rs[j].off <= hi {
      AbsorbAbove(rs, j + 1, if rs[j].off < lo then rs[j].off else lo, if rs[j].end > hi then rs[j].end else hi,
                  base, len);
    }
  }

  /** The list after a merge, inside a buffer that reaches far enough. */
  lemma MergedInside(rs: seq<Range>, off: nat, end: nat, base: nat, len: nat)
    requires Sorted(rs) && off < end && |rs| <= MAX_RANGES && Inside(rs, base, len) && base <= off
    ensures var i := Before(rs, off);
            var (m, j) := Absorb(rs, i, off, end);
            && i <= j <= |rs| && base <= m.off <= off && end <= m.end
            && (Dropped(rs, off, end) <==> j == i && |rs| >= MAX_RANGES)
            && Merge(rs, off, end) == (if Dropped(rs, off, end) then rs else rs[..i] + [m] + rs[j..])
            && (!Dropped(rs, off, end) ==> Inside(Merge(rs, off, end), base, Max(len, m.end - base)))
  {
    hide Absorb, Before;
    var i := Before(rs, off);
    AbsorbAbove(rs, i, off, end, base, len);
    var (m, j) := Absorb(rs, i, off, end);
    var ms := rs[..i] + [m] + rs[j..];
    forall k | 0 <= k < |ms| ensures base <= ms[k].off && ms[k].end - base <= Max(len, m.end - base) {
      assert ms[k] == if k < i then rs[k] else if k == i then m else rs[k - i - 1 + j];
    }
  }

  function Max(a: int, b: int): int { if a > b then a else b }

  /** Every byte held is what `stream` has there. */
  ghost predicate Mirrors(stream: ByteSeq, base: nat, buf: ByteSeq, rs: seq<Range>) {
    forall x: nat :: Covered(rs, x) ==> base <= x < base + |buf| && x < |stream| && buf[x - base] == stream[x]
  }

  /** Writing a piece of the stream keeps what was there and adds what is new. */
  lemma MirrorsMore(stream: ByteSeq, base: nat, was: ByteSeq, buf: ByteSeq, rs: seq<Range>, off: nat, data: ByteSeq)
    requires Sorted(rs) && |rs| <= MAX_RANGES && data != [] && base <= off && off - base + |data| <= |buf|
    requires Mirrors(stream, base, was, rs) && Piece(stream, off, data) && !Dropped(rs, off, off + |data|)
    requires |was| <= |buf|
    requires buf[off - base..off - base + |data|] == data
    requires forall k :: 0 <= k < |was| && !(off - base <= k < off - base + |data|) ==> buf[k] == was[k]
    ensures Mirrors(stream, base, buf, Merge(rs, off, off + |data|))
  {
    hide Merge, Covered, Dropped;
    var end := off + |data|;
    forall x: nat | Covered(Merge(rs, off, end), x)
      ensures base <= x < base + |buf| && x < |stream| && buf[x - base] == stream[x]
    {
      MergeIs(rs, off, end, x);
      if off <= x < end {
        assert buf[off - base..off - base + |data|][x - off] == buf[x - base];
      }
    }
  }

  /** `data` is what `stream` has at `off`. */
  predicate Piece(stream: ByteSeq, off: nat, data: ByteSeq) {
    off + |data| <= |stream| && data == stream[off..off + |data|]
  }

  class Reasm {
    const limit: nat
    var base: nat          // the offset of the first byte not yet consumed
    var buf: seq<Byte>     // the bytes from `base` on, where they have arrived
    var len: nat           // how much of the buffer may hold any
    var ranges: seq<Range>
    ghost var read: ByteSeq

    /** The ranges held are in order, above `base` and inside the buffer. */
    ghost predicate Valid()
      reads this
    {
      && Sorted(ranges) && |ranges| <= MAX_RANGES && len <= |buf| && |read| == base && limit < U64
      && Inside(ranges, base, len)
    }

    /** What has been consumed, and every byte held, is what `stream` has there. */
    ghost predicate Holds(stream: ByteSeq)
      reads this
    {
      read <= stream && Mirrors(stream, base, buf, ranges)
    }

    constructor (limit: nat)
      requires limit < U64
      ensures Valid() && base == 0 && ranges == [] && read == [] && this.limit == limit
    {
      this.limit := limit;
      base, buf, len, ranges, read := 0, [], 0, [], [];
    }

    /** Makes room for `need` bytes, doubling. */
    method Reserve(need: nat)
      modifies this`buf
      ensures |buf| >= need && old(buf) <= buf
      ensures |buf| == |old(buf)| || |buf| <= FIRST_SIZE || |buf| < 2 * need
    {
      if |buf| > 0 && |buf| >= need {
        return;
      }
      var want := if |buf| > 0 then |buf| else FIRST_SIZE;
      while want < need
        invariant want > 0 && want >= |buf| && (want <= FIRST_SIZE || want == |buf| || want < 2 * need)
        decreases need - want
      {
        want := want * 2;
      }
      buf := buf + seq(want - |buf|, _ => 0);
    }

    /** Where a range would go in the list, and what it would become there. */
    method Place(off: nat, end: nat) returns (i: nat, j: nat, m: Range)
      requires Sorted(ranges) && off < end
      ensures i == Before(ranges, off) && (m, j) == Absorb(ranges, i, off, end)
    {
      hide Before, Sorted;
      i := 0;
      while i < |ranges| && ranges[i].end < off
        invariant i <= |ranges| && forall k :: 0 <= k < i ==> ranges[k].end < off
      {
        i := i + 1;
      }
      var mlo, mhi := off, end;
      j := i;
      while j < |ranges| && ranges[j].off <= mhi
        invariant i <= j <= |ranges| && Absorb(ranges, i, off, end) == Absorb(ranges, j, mlo, mhi)
        decreases |ranges| - j
      {
        if ranges[j].off < mlo {
          mlo := ranges[j].off;
        }
        if ranges[j].end > mhi {
          mhi := ranges[j].end;
        }
        j := j + 1;
      }
      m := Range(mlo, mhi);
    }

    /** Takes in a piece above `base`, of which none has been consumed. */
    method Insert(off: nat, data: ByteSeq, ghost stream: ByteSeq)
      requires Valid() && data != [] && base <= off
      modifies this
      ensures Valid() && base == old(base) && read == old(read)
      ensures ranges == Merge(old(ranges), off, off + |data|)
      ensures old(Holds(stream)) && Piece(stream, off, data) ==> Holds(stream)
    {
      hide Merge, Sorted, Inside, Mirrors, Dropped, Before, Absorb;
      var end := off + |data|;
      var i, j, m := Place(off, end);
      MergedInside(ranges, off, end, base, len);
      MergeIs(ranges, off, end, 0);
      if j == i && |ranges| >= MAX_RANGES {
        return;
      }
      ghost var was := buf;
      var need := m.end - base;
      Reserve(need);
      Overwrite(off - base, data);
      if old(Mirrors(stream, base, buf, ranges)) && Piece(stream, off, data) {
        MirrorsMore(stream, base, was, buf, ranges, off, data);
      }
      len := if need > len then need else len;
      ranges := ranges[..i] + [m] + ranges[j..];
    }

    method Overwrite(p: nat, data: ByteSeq)
      requires p + |data| <= |buf|
      modifies this`buf
      ensures |buf| == |old(buf)| && buf[p..p + |data|] == data
      ensures forall k :: 0 <= k < |buf| && !(p <= k < p + |data|) ==> buf[k] == old(buf)[k]
    {
      buf := buf[..p] + data + buf[p + |data|..];
    }

    /** A piece has arrived. False only if it runs past what was permitted. */
    method Add(off: nat, data: ByteSeq, ghost stream: ByteSeq) returns (ok: bool)
      requires Valid() && off < U64 && |data| < U64
      modifies this
      ensures Valid() && base == old(base) && read == old(read)
      ensures ok <==> data == [] || off + |data| <= limit
      ensures ranges == if ok && off + |data| > base && data != []
                        then Merge(old(ranges), Max(off, base), off + |data|) else old(ranges)
      ensures ok && off + |data| > base && data != [] ==>
                (AllHeld(ranges, Max(off, base), off + |data|)
                 <==> !Dropped(old(ranges), Max(off, base), off + |data|))
      ensures old(Holds(stream)) && Piece(stream, off, data) ==> Holds(stream)
    {
      hide Merge, Dropped, AllHeld, Sorted, Inside, Mirrors;
      if |data| == 0 {
        return true;
      }
      var end := (off + |data|) % U64;
      if end < off || end > limit {
        return false;
      }
      if end <= base {
        return true;
      }
      HeldExactly(ranges, Max(off, base), end);
      if off < base {
        var skip := base - off;
        assert Piece(stream, off, data) ==> Piece(stream, base, data[skip..]);
        Insert(base, data[skip..], stream);
      } else {
        Insert(off, data, stream);
      }
      return true;
    }

    function Readable(): (n: nat)
      requires Valid()
      reads this
      ensures n <= len
    {
      if ranges == [] || ranges[0].off != base then 0 else ranges[0].end - base
    }

    /** Hands over `n` of the bytes that can be read, and moves on past them. */
    method Consume(n: nat, ghost stream: ByteSeq) returns (out: ByteSeq)
      requires Valid() && n <= Readable()
      modifies this
      ensures Valid() && base == old(base) + n && read == old(read) + out && |out| == n
      ensures forall x: nat :: Covered(ranges, x) <==> old(Covered(ranges, x)) && x >= base
      ensures old(Holds(stream)) ==> Holds(stream) && out == stream[old(base)..base]
    {
      hide Sorted, Inside, Covered, Mirrors;
      out := buf[..n];
      if n == 0 {
        EmptyTake(stream, this);
        return;
      }
      ghost var was, rs, b := buf, ranges, base;
      Trimmed(ranges, base, base + n, len);
      if Mirrors(stream, base, buf, ranges) {
        Handed(stream, base, buf, ranges, n);
      }
      read := read + out;
      DropFront(n);
      SlideDown(n);
      if Mirrors(stream, b, was, rs) {
        SlidDown(stream, b, was, rs, n, buf, ranges, len);
      }
    }

    method DropFront(n: nat)
      requires ranges != [] && base + n <= ranges[0].end
      modifies this`base, this`ranges
      ensures base == old(base) + n && ranges == Trim(old(ranges), base)
    {
      base := base + n;
      if ranges[0].end == base {
        ranges := ranges[1..];
      } else {
        ranges := ranges[0 := Range(base, ranges[0].end)];
      }
    }

    /** Slides the bytes held down to the front of the buffer, which keeps its size. */
    method SlideDown(n: nat)
      requires n <= len <= |buf|
      modifies this`buf, this`len
      ensures len == old(len) - n && |buf| == |old(buf)|
      ensures buf == old(buf)[n..n + len] + old(buf)[len..]
    {
      var keep := if len > n then len - n else 0;
      buf := buf[n..n + keep] + buf[keep..];
      len := keep;
    }
  }

  lemma EmptyTake(stream: ByteSeq, r: Reasm)
    requires r.Valid()
    ensures r.read + [] == r.read && stream[..0] == []
    ensures forall x: nat :: Covered(r.ranges, x) ==> x >= r.base
  {
    assert forall k :: 0 <= k < |r.ranges| ==> r.base <= r.ranges[k].off;
  }

  /** The ranges once everything below `to` has gone. */
  function Trim(rs: seq<Range>, to: nat): seq<Range>
    requires rs != []
  {
    if rs[0].end == to then rs[1..] else rs[0 := Range(to, rs[0].end)]
  }

  lemma Trimmed(rs: seq<Range>, base: nat, to: nat, len: nat)
    requires Sorted(rs) && Inside(rs, base, len) && rs != [] && rs[0].off == base < to <= rs[0].end
    ensures var ts := Trim(rs, to);
            && Sorted(ts) && Inside(ts, to, if len > to - base then len - (to - base) else 0)
            && forall x: nat :: Covered(ts, x) <==> Covered(rs, x) && x >= to
  {
    var ts := Trim(rs, to);
    var d := |rs| - |ts|;
    assert forall k :: (if d == 1 then 0 else 1) <= k < |ts| ==> ts[k] == rs[k + d];
    forall x: nat ensures Covered(ts, x) <==> Covered(rs, x) && x >= to {
      TrimCovers(rs, to, x);
    }
  }

  lemma TrimCovers(rs: seq<Range>, to: nat, x: nat)
    requires Sorted(rs) && rs != [] && rs[0].off < to <= rs[0].end
    ensures Covered(Trim(rs, to), x) <==> Covered(rs, x) && x >= to
  {
    var ts := Trim(rs, to);
    CoveredParts(rs, 0, 1, x);
    assert rs[..0] == [] && rs[0..1] == [rs[0]];
    CoveredOne(rs[0], x);
    RestIsAbove(rs, to, x);
    if rs[0].end != to {
      CoveredParts(ts, 0, 1, x);
      assert ts[..0] == [] && ts[0..1] == [ts[0]] && ts[1..] == rs[1..];
      CoveredOne(ts[0], x);
    }
  }

  lemma RestIsAbove(rs: seq<Range>, to: nat, x: nat)
    requires Sorted(rs) && rs != [] && to <= rs[0].end
    ensures Covered(rs[1..], x) ==> x >= to
  {
    if Covered(rs[1..], x) {
      var k :| 0 <= k < |rs[1..]| && rs[1..][k].off <= x < rs[1..][k].end;
      assert rs[1..][k] == rs[k + 1];
    }
  }

  lemma Handed(stream: ByteSeq, base: nat, buf: ByteSeq, rs: seq<Range>, n: nat)
    requires Mirrors(stream, base, buf, rs) && rs != [] && rs[0].off == base && base + n <= rs[0].end && n > 0
    ensures n <= |buf| && base + n <= |stream| && buf[..n] == stream[base..base + n]
  {
    assert Covered(rs, base + n - 1) by {
      assert rs[0].off <= base + n - 1 < rs[0].end;
    }
    forall k | 0 <= k < n ensures buf[k] == stream[base + k] {
      assert rs[0].off <= base + k < rs[0].end;
      assert Covered(rs, base + k);
    }
  }

  lemma SlidDown(stream: ByteSeq, base: nat, was: ByteSeq, rs: seq<Range>, n: nat, buf: ByteSeq, ts: seq<Range>, keep: nat)
    requires Mirrors(stream, base, was, rs) && n + keep <= |was| && buf == was[n..n + keep] + was[keep..]
    requires Inside(ts, base + n, keep)
    requires forall x: nat :: Covered(ts, x) <==> Covered(rs, x) && x >= base + n
    ensures Mirrors(stream, base + n, buf, ts)
  {
    forall x: nat | Covered(ts, x)
      ensures base + n <= x < base + n + |buf| && x < |stream| && buf[x - (base + n)] == stream[x]
    {
      var k :| 0 <= k < |ts| && ts[k].off <= x < ts[k].end;
      assert x < base + n + keep;
      assert buf[x - (base + n)] == was[x - base];
    }
  }

  /** What can be read is all there is up to the first byte missing. */
  lemma ReadableIsTheRun(r: Reasm)
    requires r.Valid()
    ensures !Covered(r.ranges, r.base + r.Readable())
    ensures forall x: nat :: r.base <= x < r.base + r.Readable() ==> Covered(r.ranges, x)
  {
    var rs, n := r.ranges, r.base + r.Readable();
    assert forall k :: 0 <= k < |rs| ==> rs[0].off <= rs[k].off;
    forall x: nat | r.base <= x < n ensures Covered(rs, x) {
      assert rs[0].off <= x < rs[0].end;
    }
  }

  /** However its pieces arrive, what the reader has had of a stream is its beginning, and what it can
      read next is what comes next. */
  lemma ReadsTheStream(r: Reasm, stream: ByteSeq)
    requires r.Valid() && r.Holds(stream)
    ensures var n := r.Readable();
            r.read + r.buf[..n] <= stream && |r.read| == r.base
  {
    var n := r.Readable();
    if n > 0 {
      Handed(stream, r.base, r.buf, r.ranges, n);
    }
  }
}
