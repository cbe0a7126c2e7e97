/** Packet numbers, cut short on the wire (section 17.1 and appendix A of RFC 9000). */
module QuicPacketNumber {
  import opened Bytes
  import Varint

  const MAX_PN: nat := Varint.VARINT_MAX + 1

  // ----- How much of one to send

  function BitLen(v: nat): nat { if v == 0 then 0 else 1 + BitLen(v / 2) }

  lemma {:induction false} BitLenIs(v: nat)
    ensures v < Pow2(BitLen(v)) && (v > 0 ==> Pow2(BitLen(v) - 1) <= v)
  {
    if v > 0 {
      BitLenIs(v / 2);
    }
  }

  /** How many packets may be outstanding when `pn` is sent. */
  function Unacked(pn: nat, largestAcked: Option<nat>): nat {
    if largestAcked.None? || largestAcked.value > pn then pn + 1 else pn - largestAcked.value
  }

  function PnSize(pn: nat, largestAcked: Option<nat>): (n: nat)
    ensures 1 <= n <= 4
  {
    var n := (BitLen(2 * Unacked(pn, largestAcked)) + 7) / 8;
    if n < 1 then 1 else if n > 4 then 4 else n
  }

  method SizeFor(pn: nat, largestAcked: Option<nat>) returns (n: nat)
    ensures n == PnSize(pn, largestAcked)
  {
    var unacked := if largestAcked.None? || largestAcked.value > pn then pn + 1 else pn - largestAcked.value;
    var range: nat := unacked * 2;
    var bits: nat := 0;
    while range > 0
      invariant BitLen(2 * unacked) == bits + BitLen(range)
      decreases range
    {
      bits := bits + 1;
      range := range / 2;
    }
    n := (bits + 7) / 8;
    if n < 1 {
      n := 1;
    }
    if n > 4 {
      n := 4;
    }
  }

  // ----- Recovering it

  function Window(n: nat): (w: nat)
    requires 1 <= n <= 4
    ensures w == 0x100 || w == 0x1_0000 || w == 0x100_0000 || w == 0x1_0000_0000
  {
    if n == 1 then 0x100 else if n == 2 then 0x1_0000 else if n == 3 then 0x100_0000 else 0x1_0000_0000
  }

  function Expected(largest: Option<nat>): nat { if largest.None? then 0 else largest.value + 1 }

  /** The number in the block of `win` that holds `expected` whose low part is `truncated`. */
  function Candidate(expected: nat, win: nat, truncated: nat): nat
    requires win > 0
  {
    expected / win * win + truncated
  }

  function PnDecode(largest: Option<nat>, truncated: nat, n: nat): nat {
    if n < 1 || n > 4 then truncated
    else
      var expected, win := Expected(largest), Window(n);
      var c := Candidate(expected, win, truncated);
      if c + win / 2 <= expected && c < MAX_PN - win then c + win
      else if c > expected + win / 2 && c >= win then c - win
      else c
  }

  /** Within half a window of what is expected, the upper end included. */
  predicate InWindow(pn: nat, expected: nat, win: nat) {
    expected < pn + win / 2 && pn <= expected + win / 2
  }

  /** At either end of the numbers there are, where there is nothing nearer with the same low part. */
  predicate AtTheEnd(pn: nat, expected: nat, win: nat) {
    || (pn < win && pn > expected + win / 2)
    || (pn >= MAX_PN - win && pn + win / 2 <= expected)
  }

  /** The choice of block, once it is known how many blocks, `k`, the candidate is off by. */
  lemma Decide(e: int, pn: int, win: int, k: int, off: int)
    requires 0 <= e < MAX_PN && 0 <= pn < MAX_PN && win > 0 && win % 2 == 0
    requires Apart(k, off, win) && -win < pn + off - e < win && pn + off >= 0
    requires pn < win && e < win ==> k == 0
    requires pn >= MAX_PN - win && e >= MAX_PN - win ==> k == 0
    ensures var c := pn + off;
            var r := if c + win / 2 <= e && c < MAX_PN - win then c + win
                     else if c > e + win / 2 && c >= win then c - win else c;
            r == pn <==> InWindow(pn, e, win) || AtTheEnd(pn, e, win)
  {
  }

  /** `off` is `k` windows. */
  predicate Apart(k: int, off: int, win: int) {
    && (k == 0 <==> off == 0) && (k == 1 ==> off == win) && (k == -1 ==> off == -win)
    && (k >= 2 ==> off >= 2 * win) && (k <= -2 ==> off <= -2 * win)
  }

  lemma IsApart(k: int, win: int)
    requires win > 0
    ensures Apart(k, k * win, win)
  {
    if k >= 2 {
      MulMonotone(2, k, win);
    } else if k <= -2 {
      MulMonotone(2, -k, win);
    }
  }

  lemma FirstBlock(x: int, win: int)
    requires win > 0 && 0 <= x < win
    ensures x / win == 0
  {
    DivModUnique(x, win, 0, x);
  }

  lemma LastBlock(x: int, win: int, n: nat)
    requires 1 <= n <= 4 && win == Window(n) && MAX_PN - win <= x < MAX_PN
    ensures x / win == MAX_PN / win - 1
  {
    var m := MAX_PN / win;
    assert m * win == MAX_PN;
    DivModUnique(x, win, m - 1, x - (m - 1) * win);
  }

  /** A packet number is recovered if and only if it is within half a window of the one expected, or
      the numbers run out before anything nearer. */
  lemma RecoveredExactly(largest: Option<nat>, pn: nat, n: nat)
    requires 1 <= n <= 4 && pn < MAX_PN && Expected(largest) < MAX_PN
    ensures var win, e := Window(n), Expected(largest);
            PnDecode(largest, pn % win, n) == pn <==> InWindow(pn, e, win) || AtTheEnd(pn, e, win)
  {
    hide Apart, InWindow, AtTheEnd;
    var win: int, e: int := Window(n), Expected(largest);
    DivMod(e, win);
    DivMod(pn, win);
    var k: int := e / win - pn / win;
    assert k * win == e / win * win - pn / win * win;
    IsApart(k, win);
    if pn < win && e < win {
      FirstBlock(pn, win);
      FirstBlock(e, win);
    }
    if pn >= MAX_PN - win && e >= MAX_PN - win {
      LastBlock(pn, win, n);
      LastBlock(e, win, n);
    }
    Decide(e, pn, win, k, k * win);
  }

  // ----- The two together

  lemma WideEnough(pn: nat, acked: Option<nat>)
    requires Unacked(pn, acked) < 0x8000_0000
    ensures 2 * Unacked(pn, acked) < Window(PnSize(pn, acked))
  {
    var v := 2 * Unacked(pn, acked);
    var b := BitLen(v);
    BitLenIs(v);
    Pow2Widths();
    if b > 32 {
      Pow2Grows(32, b - 1);
    } else {
      var n := PnSize(pn, acked);
      Pow2Grows(b, 8 * n);
    }
  }

  /** And no wider: it is the least number of bytes that holds twice the packets outstanding, or four. */
  lemma LeastSize(pn: nat, acked: Option<nat>, outstanding: nat)
    requires outstanding == if acked.Some? && acked.value <= pn then pn - acked.value else pn + 1
    ensures var n := PnSize(pn, acked);
            && (n < 4 ==> 2 * outstanding < Pow2(8 * n))
            && (n > 1 ==> 2 * outstanding >= Pow2(8 * (n - 1)))
  {
    var v, n := 2 * outstanding, PnSize(pn, acked);
    var b := BitLen(v);
    BitLenIs(v);
    if n < 4 {
      Pow2Grows(b, 8 * n);
    }
    if n > 1 {
      Pow2Grows(8 * (n - 1), b - 1);
    }
  }

  lemma Pow2Widths()
    ensures Pow2(8) == 0x100 && Pow2(16) == 0x1_0000 && Pow2(24) == 0x100_0000 && Pow2(32) == 0x1_0000_0000
  {
    assert Pow2(8) == 256;
    Pow2Add(8, 8);
    Pow2Add(16, 8);
    Pow2Add(16, 16);
  }

  /** The size a sender picks is enough: a receiver that has had what it acknowledged, and nothing half
      a window past `pn`, recovers it; so long as no more than 2^31 packets are outstanding. */
  lemma SentIsRecovered(pn: nat, acked: Option<nat>, largest: Option<nat>)
    requires pn < MAX_PN && Expected(largest) < MAX_PN && Unacked(pn, acked) < 0x8000_0000
    requires acked.Some? && acked.value <= pn ==> largest.Some? && largest.value >= acked.value
    requires Expected(largest) < pn + Window(PnSize(pn, acked)) / 2
    ensures var n := PnSize(pn, acked);
            PnDecode(largest, pn % Window(n), n) == pn
  {
    hide PnSize, PnDecode, Window;
    var n := PnSize(pn, acked);
    WideEnough(pn, acked);
    RecoveredExactly(largest, pn, n);
  }
}
