/** Which packet numbers have been received, kept so that they can be acknowledged. */
module QuicAckState {
  import opened Bytes
  import opened QuicAck
  import opened QuicFrame

  const MAX_ACK_RANGES := 32

  predicate Acked(rs: seq<Range>, x: nat) { exists k :: 0 <= k < |rs| && rs[k].smallest <= x <= rs[k].largest }

  /** How many ranges begin at or above `pn`. */
  function Slot(rs: seq<Range>, pn: nat): (i: nat)
    ensures i <= |rs| && (forall k :: 0 <= k < i ==> rs[k].largest >= pn) && (i < |rs| ==> rs[i].largest < pn)
  {
    if rs == [] || rs[0].largest < pn then 0 else 1 + Slot(rs[1..], pn)
  }

  predicate JoinsAbove(rs: seq<Range>, i: nat, pn: nat) { 0 < i <= |rs| && rs[i - 1].smallest == pn + 1 }

  predicate JoinsBelow(rs: seq<Range>, i: nat, pn: nat) { i < |rs| && rs[i].largest + 1 == pn }

  /** A number of its own, put in at `i`. */
  function InsertAt(rs: seq<Range>, i: nat, pn: PacketNumber): (r: seq<Range>)
    requires i <= |rs|
    ensures |r| == |rs| + 1
  {
    rs[..i] + [Range(pn, pn)] + rs[i..]
  }

  /** The list with a number that is not in it: joined to its neighbours, or in a range of its own,
      for which a full list gives up its lowest; or left out, if it is lower than all of those. */
  function Record(rs: seq<Range>, pn: PacketNumber): seq<Range> {
    var i := Slot(rs, pn);
    if JoinsAbove(rs, i, pn) && JoinsBelow(rs, i, pn) then
      rs[..i - 1] + [Range(rs[i - 1].largest, rs[i].smallest)] + rs[i + 1..]
    else if JoinsAbove(rs, i, pn) then rs[i - 1 := Range(rs[i - 1].largest, pn)]
    else if JoinsBelow(rs, i, pn) then rs[i := Range(pn, rs[i].smallest)]
    else if |rs| < MAX_ACK_RANGES then InsertAt(rs, i, pn)
    else if i < MAX_ACK_RANGES then InsertAt(rs, i, pn)[..MAX_ACK_RANGES]
    else rs
  }

  /** Whether a full list has to give something up for `pn`, or leave it out. */
  predicate Crowded(rs: seq<Range>, pn: nat) {
    var i := Slot(rs, pn);
    |rs| >= MAX_ACK_RANGES && !JoinsAbove(rs, i, pn) && !JoinsBelow(rs, i, pn)
  }

  /** Whether `pn` is what a full list leaves out. */
  predicate LeftOut(rs: seq<Range>, pn: nat) { Crowded(rs, pn) && Slot(rs, pn) >= MAX_ACK_RANGES }

  predicate Ordered(rs: seq<Range>) {
    && Descending(rs)
    && (forall k, l :: 0 <= k < l < |rs| ==> rs[l].largest + 2 <= rs[k].smallest)
  }

  lemma {:induction false} OrderedFrom(rs: seq<Range>, k: nat, l: nat)
    requires Descending(rs) && k < l < |rs|
    ensures rs[l].largest + 2 <= rs[k].smallest
    decreases l
  {
    if k < l - 1 {
      OrderedFrom(rs, k, l - 1);
    }
  }

  lemma IsOrdered(rs: seq<Range>)
    requires Descending(rs)
    ensures Ordered(rs)
  {
    forall k, l | 0 <= k < l < |rs| ensures rs[l].largest + 2 <= rs[k].smallest {
      OrderedFrom(rs, k, l);
    }
  }

  /** Where a number that is not in the list stands among its ranges. */
  lemma Between(rs: seq<Range>, pn: nat)
    requires Ordered(rs) && !Acked(rs, pn)
    ensures var i := Slot(rs, pn);
            && (i > 0 ==> pn < rs[i - 1].smallest) && (i < |rs| ==> rs[i].largest < pn)
  {
    var i := Slot(rs, pn);
    if i > 0 {
      assert rs[i - 1].largest >= pn;
    }
  }

  /** Three runs of ranges, one after another, each below the one before. */
  lemma Chained(a: seq<Range>, m: Range, b: seq<Range>)
    requires Descending(a) && Descending(b) && m.smallest <= m.largest
    requires a != [] ==> m.largest + 2 <= a[|a| - 1].smallest
    requires b != [] ==> b[0].largest + 2 <= m.smallest
    ensures Descending(a + [m] + b)
  {
    var ms := a + [m] + b;
    forall k | 0 < k < |ms| ensures ms[k].largest + 2 <= ms[k - 1].smallest {
      if k < |a| {
        assert ms[k] == a[k] && ms[k - 1] == a[k - 1];
      } else if k > |a| + 1 {
        assert ms[k] == b[k - |a| - 1] && ms[k - 1] == b[k - |a| - 2];
      }
    }
    forall k | 0 <= k < |ms| ensures ms[k].smallest <= ms[k].largest {
      assert k < |a| ==> ms[k] == a[k];
      assert k > |a| ==> ms[k] == b[k - |a| - 1];
    }
  }

  lemma Slices(rs: seq<Range>, i: nat)
    requires Descending(rs) && i <= |rs|
    ensures Descending(rs[..i]) && Descending(rs[i..])
  {
    assert forall k :: 0 <= k < |rs| - i ==> rs[i..][k] == rs[i + k];
  }

  /** Every list that recording makes is one run of ranges, one range, and another run. */
  function Mid(rs: seq<Range>, i: nat, pn: PacketNumber): (nat, Range, nat)
    requires i <= |rs|
  {
    if JoinsAbove(rs, i, pn) && JoinsBelow(rs, i, pn) then (i - 1, Range(rs[i - 1].largest, rs[i].smallest), i + 1)
    else if JoinsAbove(rs, i, pn) then (i - 1, Range(rs[i - 1].largest, pn), i)
    else if JoinsBelow(rs, i, pn) then (i, Range(pn, rs[i].smallest), i + 1)
    else (i, Range(pn, pn), i)
  }

  function Spliced(rs: seq<Range>, a: nat, m: Range, b: nat): seq<Range>
    requires a <= b <= |rs|
  {
    rs[..a] + [m] + rs[b..]
  }

  lemma Neighbours(rs: seq<Range>, k: int)
    requires Descending(rs)
    ensures 0 <= k < |rs| ==> rs[k].smallest <= rs[k].largest
    ensures 0 < k < |rs| ==> rs[k].largest + 2 <= rs[k - 1].smallest
  {
  }

  lemma DescendingOf(rs: seq<Range>)
    requires Ordered(rs)
    ensures Descending(rs)
  {
  }

  predicate In(r: Range, x: nat) { r.smallest <= x <= r.largest }

  /** The range in the middle fits between its neighbours, and holds the number and the ranges that
      it replaces. */
  lemma MidFacts(rs: seq<Range>, pn: PacketNumber, x: nat)
    requires Ordered(rs) && !Acked(rs, pn)
    ensures var (a, m, b) := Mid(rs, Slot(rs, pn), pn);
            && a <= b <= |rs| && b <= a + 2 && m.smallest <= m.largest
            && (a > 0 ==> m.largest + 2 <= rs[a - 1].smallest)
            && (b < |rs| ==> rs[b].largest + 2 <= m.smallest)
            && (In(m, x) <==> x == pn || (a < b && In(rs[a], x)) || (b == a + 2 && In(rs[a + 1], x)))
  {
    hide Slot, Acked, Descending, Ordered;
    var i: int := Slot(rs, pn);
    Between(rs, pn);
    DescendingOf(rs);
    Neighbours(rs, i - 1);
    Neighbours(rs, i);
    Neighbours(rs, i + 1);
  }

  lemma MidDescends(rs: seq<Range>, pn: PacketNumber)
    requires Ordered(rs) && !Acked(rs, pn)
    ensures var (a, m, b) := Mid(rs, Slot(rs, pn), pn);
            a <= b <= |rs| && Descending(Spliced(rs, a, m, b))
  {
    hide Slot, Acked, Descending, Mid;
    MidFacts(rs, pn, 0);
    var (a, m, b) := Mid(rs, Slot(rs, pn), pn);
    Slices(rs, a);
    Slices(rs, b);
    Chained(rs[..a], m, rs[b..]);
  }

  lemma RecordIs(rs: seq<Range>, pn: PacketNumber)
    requires |rs| <= MAX_ACK_RANGES
    ensures var i := Slot(rs, pn);
            var (a, m, b) := Mid(rs, i, pn);
            && a <= b <= |rs|
            && Record(rs, pn) == (if !Crowded(rs, pn) then Spliced(rs, a, m, b)
                                  else if i < MAX_ACK_RANGES then Spliced(rs, a, m, b)[..MAX_ACK_RANGES]
                                  else rs)
  {
    hide Slot;
  }

  lemma RecordDescends(rs: seq<Range>, pn: PacketNumber)
    requires Descending(rs) && !Acked(rs, pn) && |rs| <= MAX_ACK_RANGES
    ensures Descending(Record(rs, pn)) && 0 < |Record(rs, pn)| <= 32
  {
    hide Slot, Acked, Descending, Record, Mid;
    IsOrdered(rs);
    MidDescends(rs, pn);
    RecordIs(rs, pn);
    var (a, m, b) := Mid(rs, Slot(rs, pn), pn);
    MidSize(rs, pn);
    if Crowded(rs, pn) {
      Slices(Spliced(rs, a, m, b), MAX_ACK_RANGES);
    }
  }

  lemma MidSize(rs: seq<Range>, pn: PacketNumber)
    ensures var (a, m, b) := Mid(rs, Slot(rs, pn), pn);
            a <= b <= |rs| && (Crowded(rs, pn) ==> a == b == Slot(rs, pn))
            && (|rs| <= MAX_ACK_RANGES && !Crowded(rs, pn) ==> |rs| + 1 - (b - a) <= MAX_ACK_RANGES)
  {
    hide Slot;
  }

  // ----- What is acknowledged

  lemma AckedParts(rs: seq<Range>, a: nat, b: nat, x: nat)
    requires a <= b <= |rs|
    ensures Acked(rs, x) <==> Acked(rs[..a], x) || Acked(rs[a..b], x) || Acked(rs[b..], x)
  {
    if Acked(rs, x) {
      var k :| 0 <= k < |rs| && rs[k].smallest <= x <= rs[k].largest;
      if k < a {
        assert rs[..a][k] == rs[k];
      } else if k < b {
        assert rs[a..b][k - a] == rs[k];
      } else {
        assert rs[b..][k - b] == rs[k];
      }
    }
  }

  lemma AckedOne(m: Range, x: nat)
    ensures Acked([m], x) <==> m.smallest <= x <= m.largest
    ensures !Acked([], x)
  {
    assert [m][0] == m;
  }

  lemma AckedTwo(m: Range, n: Range, x: nat)
    ensures Acked([m, n], x) <==> m.smallest <= x <= m.largest || n.smallest <= x <= n.largest
  {
    assert [m, n][0] == m && [m, n][1] == n;
  }

  lemma SplicedAcks(rs: seq<Range>, pn: PacketNumber, x: nat)
    requires Ordered(rs) && !Acked(rs, pn)
    ensures var (a, m, b) := Mid(rs, Slot(rs, pn), pn);
            a <= b <= |rs| && (Acked(Spliced(rs, a, m, b), x) <==> Acked(rs, x) || x == pn)
  {
    hide Slot, Acked, Descending, Mid;
    MidFacts(rs, pn, x);
    var (a, m, b) := Mid(rs, Slot(rs, pn), pn);
    var ms := Spliced(rs, a, m, b);
    AckedParts(rs, a, b, x);
    AckedParts(ms, a, a + 1, x);
    assert ms[..a] == rs[..a] && ms[a..a + 1] == [m] && ms[a + 1..] == rs[b..];
    AckedOne(m, x);
    if b == a + 2 {
      assert rs[a..b] == [rs[a], rs[a + 1]];
      AckedTwo(rs[a], rs[a + 1], x);
    } else if b == a + 1 {
      assert rs[a..b] == [rs[a]];
      AckedOne(rs[a], x);
    } else {
      assert rs[a..b] == [];
    }
  }

  /** A full list that gives up its lowest range to a number of its own. */
  lemma CrowdedAcks(rs: seq<Range>, i: nat, pn: PacketNumber, x: nat)
    requires i < |rs|
    ensures Acked(InsertAt(rs, i, pn)[..|rs|], x) <==> Acked(rs[..|rs| - 1], x) || x == pn
  {
    hide Acked;
    var ms, lower := InsertAt(rs, i, pn)[..|rs|], rs[..|rs| - 1];
    AckedParts(ms, i, i + 1, x);
    AckedParts(lower, i, i, x);
    assert ms == lower[..i] + [Range(pn, pn)] + lower[i..];
    assert ms[..i] == lower[..i];
    assert ms[i..i + 1] == [Range(pn, pn)];
    assert ms[i + 1..] == lower[i..];
    assert lower[i..i] == [];
    AckedOne(Range(pn, pn), x);
  }

  /** What recording a number acknowledges: it and all there was, unless the list is full and the
      number touches none of it; then the lowest range goes to make room, or, if the number is lower
      still, the number is left out. */
  lemma RecordAcks(rs: seq<Range>, pn: PacketNumber, x: nat)
    requires Descending(rs) && !Acked(rs, pn) && |rs| <= MAX_ACK_RANGES
    ensures Acked(Record(rs, pn), x) <==>
            if !Crowded(rs, pn) then Acked(rs, x) || x == pn
            else if !LeftOut(rs, pn) then Acked(rs[..|rs| - 1], x) || x == pn
            else Acked(rs, x)
  {
    hide Slot, Acked, Descending, Record, Mid;
    IsOrdered(rs);
    SplicedAcks(rs, pn, x);
    RecordIs(rs, pn);
    MidSize(rs, pn);
    if Crowded(rs, pn) && !LeftOut(rs, pn) {
      CrowdedMid(rs, pn);
      CrowdedAcks(rs, Slot(rs, pn), pn, x);
    }
  }

  lemma CrowdedMid(rs: seq<Range>, pn: PacketNumber)
    requires Crowded(rs, pn)
    ensures Mid(rs, Slot(rs, pn), pn) == (Slot(rs, pn), Range(pn, pn), Slot(rs, pn))
  {
    hide Slot;
  }

  // ----- What is forgotten

  ghost function Numbers(r: Range): set<nat> { set x: nat | x <= r.largest && In(r, x) }

  /** The numbers that were received and that the list no longer names, or never did: those of a range
      that was given up, and those that were left out. One that comes again and is recorded is no
      longer among them. */
  ghost function Forget(rs: seq<Range>, lost: set<nat>, pn: nat): set<nat> {
    if Acked(rs, pn) then lost
    else if !Crowded(rs, pn) then lost - {pn}
    else if !LeftOut(rs, pn) then lost - {pn} + Numbers(rs[|rs| - 1])
    else lost + {pn}
  }

  /** The list names exactly the numbers received that have not been forgotten. */
  ghost predicate Knows(rs: seq<Range>, received: set<nat>, lost: set<nat>) {
    && lost <= received
    && (forall x: nat :: Acked(rs, x) <==> x in received && x !in lost)
  }

  lemma LowestIsApart(rs: seq<Range>, x: nat)
    requires Descending(rs) && rs != []
    ensures Acked(rs[..|rs| - 1], x) <==> Acked(rs, x) && !In(rs[|rs| - 1], x)
  {
    var n := |rs| - 1;
    IsOrdered(rs);
    AckedParts(rs, n, n, x);
    assert rs[n..] == [rs[n]] && rs[n..n] == [];
    AckedOne(rs[n], x);
  }

  lemma RecordKnows(rs: seq<Range>, pn: PacketNumber, received: set<nat>, lost: set<nat>)
    requires Descending(rs) && |rs| <= MAX_ACK_RANGES && !Acked(rs, pn) && Knows(rs, received, lost)
    ensures Knows(Record(rs, pn), received + {pn}, Forget(rs, lost, pn))
  {
    hide Acked, Record, Descending, Crowded, LeftOut;
    var more, lost' := received + {pn}, Forget(rs, lost, pn);
    forall x: nat ensures Acked(Record(rs, pn), x) <==> x in more && x !in lost' {
      RecordAcks(rs, pn, x);
      if Crowded(rs, pn) && !LeftOut(rs, pn) {
        CrowdedIsFull(rs, pn);
        LowestIsApart(rs, x);
        if pn in Numbers(rs[|rs| - 1]) {
          LastAcks(rs, pn);
        }
      }
    }
    if Crowded(rs, pn) && !LeftOut(rs, pn) {
      CrowdedIsFull(rs, pn);
      forall x | x in Numbers(rs[|rs| - 1]) ensures x in received {
        LastAcks(rs, x);
      }
    }
  }

  lemma CrowdedIsFull(rs: seq<Range>, pn: nat)
    requires Crowded(rs, pn)
    ensures |rs| >= 32
  {
  }

  lemma LastAcks(rs: seq<Range>, x: nat)
    requires rs != [] && x in Numbers(rs[|rs| - 1])
    ensures Acked(rs, x)
  {
  }

  /** A list after numbers have come in. */
  function Heard(rs: seq<Range>, pns: seq<PacketNumber>): seq<Range>
    decreases |pns|
  {
    if pns == [] then rs
    else Heard(if Acked(rs, pns[0]) then rs else Record(rs, pns[0]), pns[1..])
  }

  /** Even numbers, each in a range of its own, the highest first. */
  function Singles(n: nat): (rs: seq<Range>)
    requires n <= 33
    ensures |rs| == n
  {
    seq(n, i requires 0 <= i < n => Range(2 * (n - 1 - i), 2 * (n - 1 - i)))
  }

  function Evens(from: nat, n: nat): seq<PacketNumber>
    requires from <= n <= 33
    decreases n - from
  {
    if from == n then [] else [2 * from] + Evens(from + 1, n)
  }

  lemma NextSingle(n: nat)
    requires n <= 32
    ensures !Acked(Singles(n), 2 * n)
    ensures Record(Singles(n), 2 * n) == if n < 32 then Singles(n + 1) else Singles(33)[..32]
  {
    var rs, pn := Singles(n), 2 * n;
    assert Slot(rs, pn) == 0;
    assert InsertAt(rs, 0, pn) == Singles(n + 1) by {
      assert rs[..0] == [] && rs[0..] == rs;
    }
  }

  lemma {:induction false} EvensHeard(k: nat)
    requires k <= 32
    ensures Heard(Singles(k), Evens(k, 33)) == Singles(33)[..32]
    decreases 33 - k
  {
    hide Record, Acked, Singles;
    var pns := Evens(k, 33);
    NextSingle(k);
    assert pns[0] == 2 * k && pns[1..] == Evens(k + 1, 33);
    if k < 32 {
      EvensHeard(k + 1);
    } else {
      assert pns[1..] == [];
    }
  }

  /** A number that was received is taken for new again once its range has been given up: of 33 numbers
      apart from one another, the first. */
  lemma HeardTwice()
    ensures !Acked(Heard([], Evens(0, 33)), 0) && Evens(0, 33)[0] == 0
  {
    hide Heard, Evens;
    EvensHeard(0);
    assert Singles(0) == [];
    assert !Acked(Singles(33)[..32], 0);
    FirstEven();
  }

  lemma FirstEven()
    ensures Evens(0, 33) != [] && Evens(0, 33)[0] == 0
  {
  }

  // ----- As it runs

  class AckState {
    var ranges: seq<Range>
    var largest: Option<PacketNumber>
    var elicitCount: nat
    var pending: bool
    ghost var received: set<nat>
    ghost var lost: set<nat>

    /** The list may go into an ACK as it stands, and names what was received and has not been
        forgotten. */
    ghost predicate Valid()
      reads this
    {
      && Descending(ranges) && |ranges| <= MAX_ACK_RANGES
      && Knows(ranges, received, lost)
      && (largest.None? <==> received == {})
      && (largest.Some? ==> largest.value in received && forall x :: x in received ==> x <= largest.value)
      && (ranges == [] <==> received == {})
    }

    constructor ()
      ensures Valid() && received == {} == lost && ranges == []
    {
      ranges, largest, elicitCount, pending, received, lost := [], None, 0, false, {}, {};
    }

    /** Where a number goes, unless it is there already. */
    method FindSlot(pn: PacketNumber) returns (i: Option<nat>)
      requires Descending(ranges)
      ensures i.None? <==> Acked(ranges, pn)
      ensures i.Some? ==> i.value == Slot(ranges, pn)
    {
      var n := 0;
      while n < |ranges| && ranges[n].largest >= pn
        invariant n <= |ranges| && Slot(ranges, pn) == n + Slot(ranges[n..], pn)
        invariant forall k :: 0 <= k < n ==> pn < ranges[k].smallest
      {
        if pn >= ranges[n].smallest {
          assert Acked(ranges, pn);
          return None;
        }
        assert ranges[n..][1..] == ranges[n + 1..];
        n := n + 1;
      }
      BelowHere(ranges, n, pn);
      return Some(n);
    }

    /** Puts a number in at its place, if there is a place for it. */
    method Store(i: nat, pn: PacketNumber) returns (kept: bool)
      requires i == Slot(ranges, pn) && |ranges| <= MAX_ACK_RANGES
      modifies this`ranges
      ensures ranges == Record(old(ranges), pn) && kept == !LeftOut(old(ranges), pn)
    {
      hide Slot, InsertAt;
      kept := true;
      var joinAbove := i > 0 && ranges[i - 1].smallest == pn + 1;
      var joinBelow := i < |ranges| && ranges[i].largest + 1 == pn;
      if joinAbove && joinBelow {
        ranges := ranges[..i - 1] + [Range(ranges[i - 1].largest, ranges[i].smallest)] + ranges[i + 1..];
      } else if joinAbove {
        ranges := ranges[i - 1 := Range(ranges[i - 1].largest, pn)];
      } else if joinBelow {
        ranges := ranges[i := Range(pn, ranges[i].smallest)];
      } else if |ranges| < MAX_ACK_RANGES {
        ranges := InsertAt(ranges, i, pn);
      } else if i < MAX_ACK_RANGES {
        ranges := InsertAt(ranges, i, pn)[..MAX_ACK_RANGES];
      } else {
        kept := false;
      }
    }

    /** A packet has arrived; false if the list says that it had already. That is the truth for every
        number but those that have been forgotten, which are answered as new again. */
    method Add(pn: PacketNumber, ackEliciting: bool) returns (isNew: bool)
      requires Valid()
      modifies this
      ensures Valid() && isNew == !old(Acked(ranges, pn))
      ensures (isNew <==> pn !in old(received)) <==> pn !in old(lost)
      ensures ranges == if isNew then Record(old(ranges), pn) else old(ranges)
      ensures received == old(received) + {pn} && lost == Forget(old(ranges), old(lost), pn)
      ensures var counts := isNew && ackEliciting && !LeftOut(old(ranges), pn);
              elicitCount == old(elicitCount) + (if counts then 1 else 0) && pending == (old(pending) || counts)
    {
      hide Slot, Descending, Acked, Record, Crowded, Numbers;
      var slot := FindSlot(pn);
      if slot.None? {
        assert received + {pn} == received;
        return false;
      }
      ghost var rs := ranges;
      RecordDescends(rs, pn);
      RecordKnows(rs, pn, received, lost);
      received, lost := received + {pn}, Forget(ranges, lost, pn);
      LowerThanTracked(rs, pn);
      var kept := Store(slot.value, pn);
      if !kept {
        return true;
      }
      if largest.None? || pn > largest.value {
        largest := Some(pn);
      }
      if ackEliciting {
        elicitCount := elicitCount + 1;
        pending := true;
      }
      return true;
    }
  }

  lemma BelowHere(rs: seq<Range>, n: nat, pn: nat)
    requires Descending(rs) && n <= |rs| && (n < |rs| ==> rs[n].largest < pn)
    requires forall k :: 0 <= k < n ==> pn < rs[k].smallest
    ensures !Acked(rs, pn) && Slot(rs[n..], pn) == 0
  {
    IsOrdered(rs);
  }

  /** A number with ranges above it is not the largest there is. */
  lemma LowerThanTracked(rs: seq<Range>, pn: nat)
    requires Descending(rs)
    ensures Slot(rs, pn) > 0 ==> Acked(rs, rs[0].largest) && pn <= rs[0].largest
  {
    if Slot(rs, pn) > 0 {
      assert rs[0].smallest <= rs[0].largest;
    }
  }

  /** Whatever has been received, once anything has, can be acknowledged as it stands, in the room a
      caller is told to leave; and the peer that walks the acknowledgement finds in it exactly the
      numbers that were received and have not been forgotten. */
  lemma CanAlwaysAcknowledge(a: AckState, delay: nat, ecn: Option<Ecn>, room: nat, rest: ByteSeq)
    requires a.Valid() && a.received != {} && room >= 20 * |a.ranges|
    requires Fits(delay) && (ecn.Some? ==> Fits(ecn.value.ect0) && Fits(ecn.value.ect1) && Fits(ecn.value.ce))
    ensures var f := Build(a.ranges, delay, ecn, room);
            && f.Some? && Encode(f.value).Some?
            && QuicFrame.Decode(Encode(f.value).value + rest) == Some((f.value, rest))
            && Begin(f.value).Some? && IterOk(Begin(f.value).value)
            && var (rs, bad) := Collect(Begin(f.value).value);
               !bad && rs == a.ranges && forall x: nat :: Acked(rs, x) <==> x in a.received && x !in a.lost
  {
    hide Pairs, Encode, QuicFrame.Decode, Collect, Acked;
    BuildsExactly(a.ranges, delay, ecn, room);
    var f := Build(a.ranges, delay, ecn, room).value;
    EncodableEncodes(f);
    AckArrives(a.ranges, delay, ecn, room, rest);
  }
}
