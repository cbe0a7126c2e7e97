/** Prefixed integers (section 5.1 of RFC 7541). */
module PrefixInt {
  import opened Bytes
  import opened Cursor
  import Varint

  /** Continuation bytes the reader will take before it gives up. */
  const MAX_DIGITS := 9

  /** What a prefix of `n` bits holds when the integer does not fit it. */
  function Fit(n: nat): (r: nat)
  {
    Pow2(n) - 1
  }

  /** The base-128 digits of `v`, least significant first, all but the last marked. */
  function Digits(v: nat): (r: ByteSeq)
    ensures |r| > 0
  {
    if v < 128 then [v] else [v % 128 + 128] + Digits(v / 128)
  }

  /** Flag bits a representation may put above a prefix of `n` bits. */
  predicate FlagsOk(flags: nat, n: nat) {
    Low(flags, n) == 0 && flags + Fit(n) < 256
  }

  /** `v` after its flags, which the caller keeps clear of the prefix; the first byte is cut to eight
      bits. */
  function Encode(v: nat, n: nat, flags: nat): (r: ByteSeq)
    ensures |r| > 0
  {
    if v < Fit(n) then [(flags + v) % 256] else [(flags + Fit(n)) % 256] + Digits(v - Fit(n))
  }

  // ----- What the bytes mean, with no bound on their number or their value

  /** Where the run of continuation bytes ends: the first byte without its top bit. */
  function LastDigit(s: ByteSeq): (r: Option<nat>)
    ensures r.Some? ==> r.value < |s| && s[r.value] < 128
    ensures r.Some? ==> forall i :: 0 <= i < r.value ==> s[i] >= 128
    ensures r.None? ==> forall i :: 0 <= i < |s| ==> s[i] >= 128
  {
    if s == [] then None
    else if s[0] < 128 then Some(0)
    else match LastDigit(s[1..])
      case None => None
      case Some(k) => Some(k + 1)
  }

  function DigitsValue(s: ByteSeq): nat {
    if s == [] then 0 else s[0] % 128 + 128 * DigitsValue(s[1..])
  }

  datatype Read = Read(value: nat, flags: nat, width: nat)

  /** The value of an integer whose prefix is full, and how many digits follow the prefix: nothing
      if they are cut short, run past `MAX_DIGITS`, or come to more than any varint can hold. */
  function Tail(t: ByteSeq, fit: nat): (r: Option<(nat, nat)>)
    ensures r.Some? ==> 1 <= r.value.1 <= |t|
  {
    match LastDigit(t)
    case None => None
    case Some(k) =>
      var v := fit + DigitsValue(t[..k + 1]);
      if k >= MAX_DIGITS || v > Varint.VARINT_MAX then None else Some((v, k + 1))
  }

  /** The integer at the front of `s`: its exact value, or nothing. */
  function Decode(s: ByteSeq, n: nat): (r: Option<Read>)
    ensures r.Some? ==> 1 <= r.value.width <= |s|
  {
    if s == [] then None
    else
      var low := Low(s[0], n);
      if low < Fit(n) then Some(Read(low, s[0] - low, 1))
      else match Tail(s[1..], Fit(n))
        case None => None
        case Some((v, d)) => Some(Read(v, s[0] - low, 1 + d))
  }

  function SevenBits(low: nat, high: nat): nat { low % 128 + 128 * high }

  /** The value by its bytes: up to the prefix's own limit it is the prefix; past it, what follows, seven
      bits to a byte and the least significant first, is added. */
  lemma ValueExactly(s: ByteSeq, n: nat)
    requires 1 <= n <= 8 && s != []
    ensures Low(s[0], n) < Fit(n) ==> Decode(s, n) == Some(Read(Low(s[0], n), s[0] - Low(s[0], n), 1))
    ensures Low(s[0], n) == Fit(n) && |s| >= 2 && s[1] < 128 ==>
              Decode(s, n) == Some(Read(Fit(n) + s[1], s[0] - Fit(n), 2))
    ensures Low(s[0], n) == Fit(n) && |s| >= 3 && s[1] >= 128 && s[2] < 128 ==>
              Decode(s, n) == Some(Read(Fit(n) + SevenBits(s[1], s[2]), s[0] - Fit(n), 3))
  {
    hide Low, Fit;
    if |s| >= 2 && s[1] < 128 {
      var t := s[1..];
      assert LastDigit(t) == Some(0);
      assert t[..1] == [s[1]];
      OneDigit(s[1]);
      FitSmall(n);
      assert Tail(t, Fit(n)) == Some((Fit(n) + s[1], 1));
    } else if |s| >= 3 && s[2] < 128 {
      var t := s[1..];
      assert t[1..][0] == s[2];
      assert t[..2] == [s[1], s[2]];
      TwoDigits(s[1], s[2]);
      FitSmall(n);
      assert s[1] >= 128 ==> Tail(t, Fit(n)) == Some((Fit(n) + SevenBits(s[1], s[2]), 2));
    }
  }

  lemma OneDigit(a: Byte)
    requires a < 128
    ensures DigitsValue([a]) == a
  {
    assert [a][1..] == [];
  }

  lemma TwoDigits(a: Byte, b: Byte)
    requires b < 128
    ensures DigitsValue([a, b]) == SevenBits(a, b)
  {
    assert [a, b][1..] == [b];
    OneDigit(b);
  }

  lemma FitSmall(n: nat)
    requires n <= 8
    ensures Fit(n) < 256
  {
    Pow2Table();
    Pow2Grows(n, 8);
  }

  // ----- Digits

  lemma {:induction false} DigitsRead(v: nat, rest: ByteSeq)
    ensures LastDigit(Digits(v) + rest) == Some(|Digits(v)| - 1)
    ensures DigitsValue(Digits(v)) == v
    decreases v
  {
    if v >= 128 {
      var s := Digits(v) + rest;
      assert s[1..] == Digits(v / 128) + rest;
      DigitsRead(v / 128, rest);
      assert Digits(v)[1..] == Digits(v / 128);
    } else {
      assert Digits(v)[1..] == [];
    }
  }

  lemma {:induction false} DigitsLength(v: nat, m: nat)
    requires v < Pow2(7 * m) && m > 0
    ensures |Digits(v)| <= m
    decreases m
  {
    if v >= 128 {
      Pow2Table();
      Pow2Add(7, 7 * (m - 1));
      assert m > 1;
      DigitsLength(v / 128, m - 1);
    }
  }

  lemma {:induction false} DigitsValueAppend(s: ByteSeq, c: Byte)
    ensures DigitsValue(s + [c]) == DigitsValue(s) + c % 128 * Pow2(7 * |s|)
  {
    hide Pow2;
    if s == [] {
      assert ([c])[1..] == [];
      OneIsPow2();
    } else {
      DigitsValueAppend(s[1..], c);
      assert (s + [c])[1..] == s[1..] + [c];
      var n := 7 * (|s| - 1);
      Pow2Table();
      Pow2Add(7, n);
      Regroup(c % 128, Pow2(n));
      assert 7 * |s| == 7 + n;
    }
  }

  lemma OneIsPow2()
    ensures Pow2(0) == 1
  {
  }

  lemma Regroup(d: nat, p: nat)
    ensures 128 * (d * p) == d * (128 * p)
  {
  }

  lemma {:induction false} DigitsValueGrows(s: ByteSeq, i: nat)
    requires i <= |s|
    ensures DigitsValue(s[..i]) <= DigitsValue(s)
    decreases i
  {
    if i > 0 {
      DigitsValueGrows(s[1..], i - 1);
      assert s[..i][1..] == s[1..][..i - 1];
    }
  }

  // ----- Round trip

  lemma DigitsOfVarint(v: nat)
    requires v <= Varint.VARINT_MAX
    ensures |Digits(v)| <= MAX_DIGITS
  {
    Pow2Table();
    assert Pow2(63) >= 0x4000_0000_0000_0000 by {
      assert Pow2(64) == 2 * Pow2(63);
    }
    DigitsLength(v, 9);
  }

  lemma ShortRead(v: nat, n: nat, flags: nat, rest: ByteSeq)
    requires FlagsOk(flags, n) && v < Fit(n)
    ensures Decode([flags + v] + rest, n) == Some(Read(v, flags, 1))
  {
    hide Tail, Pow2, Low;
    LowBits(flags, n, v);
    assert ([flags + v] + rest)[0] == flags + v;
  }

  lemma LongRead(v: nat, n: nat, flags: nat, rest: ByteSeq)
    requires FlagsOk(flags, n) && Fit(n) <= v <= Varint.VARINT_MAX
    ensures var d := Digits(v - Fit(n));
            && Decode([flags + Fit(n)] + d + rest, n) == Some(Read(v, flags, 1 + |d|))
            && |d| <= MAX_DIGITS
  {
    hide Tail, Pow2, Low, Digits;
    LowBits(flags, n, Fit(n));
    var d := Digits(v - Fit(n));
    var s := [flags + Fit(n)] + d + rest;
    assert s[0] == flags + Fit(n) && s[1..] == d + rest;
    TailOfDigits(v - Fit(n), Fit(n), rest);
  }

  /** Reading back what was written gives the value, the flags and the rest of the input. */
  lemma RoundTrip(v: nat, n: nat, flags: nat, rest: ByteSeq)
    requires FlagsOk(flags, n) && v <= Varint.VARINT_MAX
    ensures Decode(Encode(v, n, flags) + rest, n)
            == Some(Read(v, flags, |Encode(v, n, flags)|))
    ensures |Encode(v, n, flags)| <= 1 + MAX_DIGITS
  {
    hide Decode, Digits, Pow2;
    if v < Fit(n) {
      ShortRead(v, n, flags, rest);
    } else {
      LongRead(v, n, flags, rest);
    }
  }

  lemma TailOfDigits(d: nat, fit: nat, rest: ByteSeq)
    requires fit + d <= Varint.VARINT_MAX
    ensures Tail(Digits(d) + rest, fit) == Some((fit + d, |Digits(d)|))
    ensures |Digits(d)| <= MAX_DIGITS
  {
    hide Digits, DigitsValue, LastDigit;
    DigitsRead(d, rest);
    DigitsOfVarint(d);
    assert (Digits(d) + rest)[..|Digits(d)|] == Digits(d);
  }

  lemma LowBits(flags: nat, n: nat, low: nat)
    requires Low(flags, n) == 0 && low < Pow2(n)
    ensures Low(flags + low, n) == low
  {
    DivMod(flags, Pow2(n));
    DivModUnique(flags + low, Pow2(n), flags / Pow2(n), low);
  }

  lemma DigitsSplit(v: nat)
    ensures Digits(v) == if v < 128 then [v] else [v % 128 + 128] + Digits(v / 128)
  {
  }

  // ----- The codec

  method WriteDigits(wr: Writer, v: nat)
    requires wr.Valid()
    modifies wr, wr.buf
    ensures wr.Valid()
    ensures !wr.bad == old(wr.Fits(|Digits(v)|))
    ensures !wr.bad ==> wr.Written() == old(wr.Written()) + Digits(v)
  {
    hide Digits;
    var val: nat := v;
    ghost var done: ByteSeq := [];
    while val >= 128
      invariant wr.Valid() && Digits(v) == done + Digits(val)
      invariant !wr.bad == old(wr.Fits(|done|))
      invariant !wr.bad ==> wr.Written() == old(wr.Written()) + done
    {
      DigitsSplit(val);
      var d := val % 128 + 128;
      wr.Put8(d);
      done := done + [d];
      val := val / 128;
    }
    DigitsSplit(val);
    wr.Put8(val);
  }

  method WriteInt(wr: Writer, v: nat, n: nat, flags: nat)
    requires wr.Valid()
    modifies wr, wr.buf
    ensures wr.Valid()
    ensures !wr.bad == old(wr.Fits(|Encode(v, n, flags)|))
    ensures !wr.bad ==> wr.Written() == old(wr.Written()) + Encode(v, n, flags)
  {
    hide Pow2, Digits, Fit;
    var fit := Fit(n);
    if v < fit {
      wr.Put8((flags + v) % 256);
      return;
    }
    wr.Put8((flags + fit) % 256);
    WriteDigits(wr, v - fit);
  }

  /** Reads an integer with 64-bit arithmetic. What comes back is the exact value or a failure,
      never one that wrapped. */
  method ReadInt(rd: Reader, n: nat) returns (v: nat, flags: nat)
    requires rd.Valid() && n <= 8
    modifies rd
    ensures rd.Valid()
    ensures !rd.bad <==> !old(rd.bad) && Decode(old(rd.Rest()), n).Some?
    ensures !rd.bad ==> var r := Decode(old(rd.Rest()), n).value;
                        v == r.value && flags == r.flags && rd.Rest() == old(rd.Rest())[r.width..]
  {
    hide Tail, Reading, DigitsValue, Low, Pow2, Shifted;
    ghost var s := rd.Rest();
    var b := rd.Get8();
    var fit := Fit(n);
    v := Low(b, n);
    flags := b - v;
    if v < fit || rd.bad {
      return;
    }
    var shift: nat := 0;
    ghost var t, taken: ByteSeq := s[1..], [];
    ReadingStarts(t);
    while true
      invariant rd.Valid() && !rd.bad && shift == 7 * |taken|
      invariant Reading(t, taken) && |taken| <= |t| && rd.Rest() == t[|taken|..]
      invariant v == fit + DigitsValue(taken) <= Varint.VARINT_MAX + 256
      decreases |t| - |taken|
    {
      ReadingNext(t, taken, fit);
      var c := rd.Get8();
      if rd.bad {
        return;
      }
      if shift > 62 {
        rd.bad := true;
        return;
      }
      AddDigit(v, taken, c, fit);
      v := (v + Shifted(c % 128, shift)) % U64;
      if v > Varint.VARINT_MAX {
        rd.bad := true;
        return;
      }
      if c < 128 {
        break;
      }
      shift := shift + 7;
      taken := taken + [c];
    }
  }

  /** The reader has taken the marked digits `taken` from the front of `t`. */
  ghost predicate Reading(t: ByteSeq, taken: ByteSeq) {
    && taken <= t && |taken| <= MAX_DIGITS
    && forall i :: 0 <= i < |taken| ==> taken[i] >= 128
  }

  lemma ReadingStarts(t: ByteSeq)
    ensures Reading(t, []) && DigitsValue([]) == 0
  {
  }

  /** What the next digit, or its absence, says about the whole integer. */
  lemma ReadingNext(t: ByteSeq, taken: ByteSeq, fit: nat)
    requires Reading(t, taken)
    ensures |taken| <= MAX_DIGITS
    ensures |t| == |taken| ==> Tail(t, fit).None?
    ensures |t| > |taken| ==>
              var c := t[|taken|];
              var v := fit + DigitsValue(taken + [c]);
              && (|taken| == MAX_DIGITS || v > Varint.VARINT_MAX ==> Tail(t, fit).None?)
              && (|taken| < MAX_DIGITS && v <= Varint.VARINT_MAX && c < 128 ==>
                    Tail(t, fit) == Some((v, |taken| + 1)))
              && (|taken| < MAX_DIGITS && c >= 128 ==> Reading(t, taken + [c]))
  {
    hide DigitsValue, LastDigit;
    PrefixValue(t, taken);
    if |t| > |taken| {
      PrefixValue(t, taken + [t[|taken|]]);
    }
  }

  /** A digit moved up, as 64 bits keep it. */
  function Shifted(d: nat, shift: nat): nat { d * Pow2(shift) % U64 }

  /** Adding the next digit wraps nothing. */
  lemma AddDigit(v: nat, taken: ByteSeq, c: Byte, fit: nat)
    requires v == fit + DigitsValue(taken) <= Varint.VARINT_MAX + 256 && |taken| <= 8
    ensures (v + Shifted(c % 128, 7 * |taken|)) % U64 == fit + DigitsValue(taken + [c])
  {
    hide DigitsValue, Pow2;
    ShiftedDigit(c % 128, 7 * |taken|);
    DigitsValueAppend(taken, c);
  }

  lemma ShiftedDigit(d: nat, shift: nat)
    requires d < 128 && shift <= 56
    ensures d * Pow2(shift) < Pow2(63) && 2 * Pow2(63) == U64
    ensures Varint.VARINT_MAX < Pow2(63)
  {
    hide Pow2;
    Pow2Table();
    Pow2Add(7, shift);
    Pow2Add(7 + shift, 56 - shift);
    MulMonotone(d, 128, Pow2(shift));
    MulMonotone(1, Pow2(56 - shift), Pow2(7 + shift));
  }

  /** The digits read so far bound the value of the whole run. */
  lemma PrefixValue(s: ByteSeq, taken: ByteSeq)
    requires taken <= s
    requires forall i :: 0 <= i < |taken| - 1 ==> taken[i] >= 128
    ensures LastDigit(s).Some? ==>
              && LastDigit(s).value + 1 >= |taken|
              && DigitsValue(taken) <= DigitsValue(s[..LastDigit(s).value + 1])
    ensures taken != [] && taken[|taken| - 1] < 128 ==>
              LastDigit(s) == Some(|taken| - 1) && s[..|taken|] == taken
    ensures taken != [] && taken[|taken| - 1] >= 128 && LastDigit(s).Some? ==>
              LastDigit(s).value >= |taken|
  {
    hide LastDigit, DigitsValue;
    if LastDigit(s).Some? {
      var all := s[..LastDigit(s).value + 1];
      DigitsValueGrows(all, |taken|);
      assert all[..|taken|] == taken;
    }
  }
}
