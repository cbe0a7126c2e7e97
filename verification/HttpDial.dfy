/** Dial coalescing: the first request for an origin dials it over QUIC and the rest wait for that
    dial. Each region under the client's lock is one indivisible step. */
module HttpDial {
  import opened Bytes

  type Key = ByteSeq

  /** A request waiting for the dial of an origin, with the token of its wait. */
  datatype Waiter = Waiter(req: nat, key: Key, park: nat)

  datatype Table = Table(dialing: seq<Key>, waiting: seq<Waiter>)

  const EMPTY := Table([], [])

  // ----- What the two regions do

  function OfKey(ws: seq<Waiter>, key: Key): seq<Waiter> {
    if ws == [] then []
    else (if ws[0].key == key then [ws[0]] else []) + OfKey(ws[1..], key)
  }

  function NotOfKey(ws: seq<Waiter>, key: Key): seq<Waiter> {
    if ws == [] then []
    else (if ws[0].key == key then [] else [ws[0]]) + NotOfKey(ws[1..], key)
  }

  function Without(keys: seq<Key>, key: Key): seq<Key> {
    if keys == [] then []
    else (if keys[0] == key then [] else [keys[0]]) + Without(keys[1..], key)
  }

  function Reverse<T>(s: seq<T>): seq<T> {
    if s == [] then [] else Reverse(s[1..]) + [s[0]]
  }

  /** Claims the right to dial, or waits: true for the one who dials. */
  function Claim(t: Table, w: Waiter): (Table, bool) {
    if w.key in t.dialing then (t.(waiting := t.waiting + [w]), false)
    else (t.(dialing := t.dialing + [w.key]), true)
  }

  /** Ends a dial: its claim is gone, and so are those who waited for it, the latest first. */
  function Done(t: Table, key: Key): (Table, seq<Waiter>) {
    (Table(Without(t.dialing, key), NotOfKey(t.waiting, key)), Reverse(OfKey(t.waiting, key)))
  }

  // ----- Every run

  datatype Action = DoClaim(w: Waiter) | DoDone(key: Key)

  function Do(t: Table, a: Action): Table {
    match a
    case DoClaim(w) => Claim(t, w).0
    case DoDone(key) => Done(t, key).0
  }

  function Run(t: Table, run: seq<Action>): Table
    decreases |run|
  {
    if run == [] then t else Run(Do(t, run[0]), run[1..])
  }

  predicate NoRepeats(keys: seq<Key>) { forall i, j :: 0 <= i < j < |keys| ==> keys[i] != keys[j] }

  /** Nobody is dialled twice at once, and nobody waits for a dial that is not under way. */
  predicate Inv(t: Table) {
    && NoRepeats(t.dialing)
    && (forall i :: 0 <= i < |t.waiting| ==> t.waiting[i].key in t.dialing)
  }

  lemma {:induction false} WithoutKey(keys: seq<Key>, key: Key, k: Key)
    ensures k in Without(keys, key) <==> k in keys && k != key
  {
    if keys != [] {
      WithoutKey(keys[1..], key, k);
      assert k in keys <==> k == keys[0] || k in keys[1..];
    }
  }

  lemma {:induction false} WithoutRepeats(keys: seq<Key>, key: Key)
    requires NoRepeats(keys)
    ensures NoRepeats(Without(keys, key))
  {
    if keys != [] {
      WithoutRepeats(keys[1..], key);
      WithoutKey(keys[1..], key, keys[0]);
    }
  }

  lemma {:induction false} NotOfKeyIs(ws: seq<Waiter>, key: Key)
    ensures forall w :: w in NotOfKey(ws, key) <==> w in ws && w.key != key
  {
    if ws != [] {
      NotOfKeyIs(ws[1..], key);
      assert forall w :: w in ws <==> w == ws[0] || w in ws[1..];
    }
  }

  lemma StepKeepsInv(t: Table, a: Action)
    requires Inv(t)
    ensures Inv(Do(t, a))
  {
    if a.DoDone? {
      WithoutRepeats(t.dialing, a.key);
      NotOfKeyIs(t.waiting, a.key);
      var u := Do(t, a);
      forall i | 0 <= i < |u.waiting| ensures u.waiting[i].key in u.dialing {
        assert u.waiting[i] in u.waiting;
        WithoutKey(t.dialing, a.key, u.waiting[i].key);
      }
    }
  }

  /** Over every run from an empty table. */
  lemma {:induction false} InvAlways(t: Table, run: seq<Action>)
    requires Inv(t)
    ensures Inv(Run(t, run))
    decreases |run|
  {
    hide Do, Inv;
    if run != [] {
      StepKeepsInv(t, run[0]);
      InvAlways(Do(t, run[0]), run[1..]);
    }
  }

  // ----- Each dial is granted once, each wait released once

  function Count<T(==)>(s: seq<T>, x: T): nat {
    if s == [] then 0 else (if s[0] == x then 1 else 0) + Count(s[1..], x)
  }

  lemma {:induction false} CountAppend<T>(s: seq<T>, y: T, x: T)
    ensures Count(s + [y], x) == Count(s, x) + (if y == x then 1 else 0)
  {
    if s == [] {
      assert s + [y] == [y];
      assert [y][1..] == [];
    } else {
      assert (s + [y])[1..] == s[1..] + [y];
      CountAppend(s[1..], y, x);
    }
  }

  lemma {:induction false} CountReverse<T>(s: seq<T>, x: T)
    ensures Count(Reverse(s), x) == Count(s, x)
  {
    if s != [] {
      CountReverse(s[1..], x);
      CountAppend(Reverse(s[1..]), s[0], x);
    }
  }

  lemma {:induction false} CountSplit(ws: seq<Waiter>, key: Key, x: Waiter)
    ensures Count(OfKey(ws, key), x) == if x.key == key then Count(ws, x) else 0
    ensures Count(NotOfKey(ws, key), x) == if x.key == key then 0 else Count(ws, x)
  {
    if ws != [] {
      CountSplit(ws[1..], key, x);
      assert OfKey(ws, key) == if ws[0].key == key then [ws[0]] + OfKey(ws[1..], key) else OfKey(ws[1..], key);
      assert NotOfKey(ws, key)
             == if ws[0].key == key then NotOfKey(ws[1..], key) else [ws[0]] + NotOfKey(ws[1..], key);
    }
  }

  /** How often, in a run, one wait has been entered and released, and one origin's dial granted and
      ended. */
  datatype Tally = Tally(parked: nat, released: nat, granted: nat, ended: nat)

  function Record(t: Table, c: Tally, a: Action, x: Waiter): Tally {
    match a
    case DoClaim(w) =>
      if Claim(t, w).1 then c.(granted := c.granted + (if w.key == x.key then 1 else 0))
      else c.(parked := c.parked + (if w == x then 1 else 0))
    case DoDone(key) =>
      c.(released := c.released + Count(Done(t, key).1, x),
         ended := c.ended + (if key == x.key && key in t.dialing then 1 else 0))
  }

  function RecordAll(t: Table, c: Tally, run: seq<Action>, x: Waiter): Tally
    decreases |run|
  {
    if run == [] then c else RecordAll(Do(t, run[0]), Record(t, c, run[0], x), run[1..], x)
  }

  predicate Balanced(t: Table, c: Tally, x: Waiter) {
    && c.parked == c.released + Count(t.waiting, x)
    && c.granted == c.ended + (if x.key in t.dialing then 1 else 0)
  }

  lemma StepBalances(t: Table, c: Tally, a: Action, x: Waiter)
    requires Inv(t) && Balanced(t, c, x)
    ensures Balanced(Do(t, a), Record(t, c, a, x), x)
  {
    hide Count, OfKey, NotOfKey, Without, Reverse;
    match a
    case DoClaim(w) => CountAppend(t.waiting, w, x);
    case DoDone(key) =>
      WithoutKey(t.dialing, key, x.key);
      CountSplit(t.waiting, key, x);
      CountReverse(OfKey(t.waiting, key), x);
  }

  /** Over every run: a wait entered is either still waiting or was handed out, as often as it was
      entered and no more; and an origin's dials that were granted have all ended but the one under
      way, so no two are ever under way at once. */
  lemma {:induction false} WaitsAndDialsBalance(t: Table, c: Tally, run: seq<Action>, x: Waiter)
    requires Inv(t) && Balanced(t, c, x)
    ensures Balanced(Run(t, run), RecordAll(t, c, run, x), x)
    decreases |run|
  {
    hide Do, Inv, Balanced, Record;
    if run != [] {
      StepKeepsInv(t, run[0]);
      StepBalances(t, c, run[0], x);
      WaitsAndDialsBalance(Do(t, run[0]), Record(t, c, run[0], x), run[1..], x);
    }
  }

  /** Ending a dial hands out all who waited for it and nobody else, and leaves the next request for
      that origin free to dial. */
  lemma DoneReleasesAll(t: Table, key: Key, x: Waiter, next: Waiter)
    requires Inv(t) && next.key == key
    ensures var (u, out) := Done(t, key);
            && Count(out, x) == (if x.key == key then Count(t.waiting, x) else 0)
            && Count(u.waiting, x) == (if x.key == key then 0 else Count(t.waiting, x))
            && Claim(u, next).1
            && (x.key != key ==> (x.key in u.dialing <==> x.key in t.dialing))
  {
    hide Count, OfKey, NotOfKey, Without, Reverse;
    WithoutKey(t.dialing, key, key);
    WithoutKey(t.dialing, key, x.key);
    CountSplit(t.waiting, key, x);
    CountReverse(OfKey(t.waiting, key), x);
  }

  /** They are handed out latest first. */
  lemma LatestFirst(t: Table, key: Key, a: nat, b: nat) returns (i: nat, j: nat)
    requires a < b < |Done(t, key).1|
    ensures j < i < |t.waiting| && t.waiting[i] == Done(t, key).1[a] && t.waiting[j] == Done(t, key).1[b]
  {
    hide OfKey, NotOfKey, Without;
    var ws := OfKey(t.waiting, key);
    ReverseAt(ws, a);
    ReverseAt(ws, b);
    j, i := OfKeyOrder(t.waiting, key, |ws| - 1 - b, |ws| - 1 - a);
  }

  lemma {:induction false} ReverseAt<T>(s: seq<T>, k: nat)
    ensures |Reverse(s)| == |s| && (k < |s| ==> Reverse(s)[k] == s[|s| - 1 - k])
    decreases |s|
  {
    if s != [] {
      ReverseAt(s[1..], k);
    }
  }

  lemma {:induction false} OfKeyOrder(ws: seq<Waiter>, key: Key, a: nat, b: nat) returns (i: nat, j: nat)
    requires a < b < |OfKey(ws, key)|
    ensures i < j < |ws| && ws[i] == OfKey(ws, key)[a] && ws[j] == OfKey(ws, key)[b]
    decreases |ws|
  {
    var more := ws[1..];
    if ws[0].key != key {
      i, j := OfKeyOrder(more, key, a, b);
      i, j := i + 1, j + 1;
    } else if a == 0 {
      j := OfKeyFrom(more, key, b - 1);
      i, j := 0, j + 1;
    } else {
      i, j := OfKeyOrder(more, key, a - 1, b - 1);
      i, j := i + 1, j + 1;
    }
  }

  lemma {:induction false} OfKeyFrom(ws: seq<Waiter>, key: Key, b: nat) returns (j: nat)
    requires b < |OfKey(ws, key)|
    ensures j < |ws| && ws[j] == OfKey(ws, key)[b]
    decreases |ws|
  {
    if ws[0].key == key && b == 0 {
      j := 0;
    } else {
      j := OfKeyFrom(ws[1..], key, if ws[0].key == key then b - 1 else b);
      j := j + 1;
    }
  }

  // ----- As it runs: three arrays side by side

  class DialTable {
    var dialing: seq<Key>
    var waiters: seq<nat>
    var waiterKeys: seq<Key>
    var waiterParks: seq<nat>

    ghost predicate Parallel()
      reads this
    {
      |waiters| == |waiterKeys| == |waiterParks|
    }

    ghost function View(): Table
      requires Parallel()
      reads this
    {
      Table(dialing, Zip(waiters, waiterKeys, waiterParks))
    }

    constructor ()
      ensures Parallel() && View() == EMPTY
    {
      dialing, waiters, waiterKeys, waiterParks := [], [], [], [];
    }

    method DialClaim(req: nat, key: Key, park: nat) returns (mine: bool)
      requires Parallel()
      modifies this
      ensures Parallel() && (View(), mine) == Claim(old(View()), Waiter(req, key, park))
    {
      mine := true;
      var i := 0;
      while i < |dialing| && mine
        invariant 0 <= i <= |dialing|
        invariant mine <==> key !in dialing[..i]
        invariant !mine ==> key in dialing
      {
        if dialing[i] == key {
          mine := false;
        }
        i := i + 1;
      }
      assert mine ==> dialing[..i] == dialing;
      if mine {
        dialing := dialing + [key];
      } else {
        ZipAppend(waiters, waiterKeys, waiterParks, req, key, park);
        waiters := waiters + [req];
        waiterKeys := waiterKeys + [key];
        waiterParks := waiterParks + [park];
      }
    }

    method ClearClaim(key: Key)
      modifies this`dialing
      ensures dialing == Without(old(dialing), key)
    {
      var i := |dialing|;
      while i > 0
        invariant 0 <= i <= |dialing| && i <= |old(dialing)|
        invariant dialing[..i] == old(dialing)[..i]
        invariant dialing[i..] == Without(old(dialing)[i..], key)
      {
        i := i - 1;
        assert old(dialing)[i..][1..] == old(dialing)[i + 1..];
        assert dialing[i] == old(dialing)[i];
        if dialing[i] == key {
          dialing := dialing[..i] + dialing[i + 1..];
        }
      }
      assert old(dialing)[0..] == old(dialing);
    }

    /** Takes one waiter out of the three arrays. */
    method RemoveAt(i: nat)
      requires Parallel() && i < |waiters|
      modifies this`waiters, this`waiterKeys, this`waiterParks
      ensures Parallel()
      ensures View().waiting == old(View().waiting)[..i] + old(View().waiting)[i + 1..]
    {
      ZipRemove(waiters, waiterKeys, waiterParks, i);
      waiters := waiters[..i] + waiters[i + 1..];
      waiterKeys := waiterKeys[..i] + waiterKeys[i + 1..];
      waiterParks := waiterParks[..i] + waiterParks[i + 1..];
    }

    /** Ends a dial, and hands out those who waited for it. */
    method DialDone(key: Key) returns (waiting: seq<nat>, parks: seq<nat>)
      requires Parallel()
      modifies this
      ensures Parallel() && |waiting| == |parks|
      ensures View() == Done(old(View()), key).0
      ensures Zip(waiting, Repeat(key, |waiting|), parks) == Done(old(View()), key).1
    {
      hide Without, Sifted, Zip, Repeat;
      waiting, parks := [], [];
      ClearClaim(key);
      var i := |waiterKeys|;
      ghost var all := View().waiting;
      SiftStart(all, key);
      ZipNothing(key);
      while i > 0
        invariant Parallel() && 0 <= i <= |waiterKeys| && |waiting| == |parks|
        invariant Sifted(View().waiting, Zip(waiting, Repeat(key, |waiting|), parks), all, i, key)
        modifies this`waiters, this`waiterKeys, this`waiterParks
      {
        i := i - 1;
        SiftStep(View().waiting, Zip(waiting, Repeat(key, |waiting|), parks), all, i, key);
        ZipAt(waiters, waiterKeys, waiterParks, i);
        if waiterKeys[i] == key {
          ZipAppend(waiting, Repeat(key, |waiting|), parks, waiters[i], key, waiterParks[i]);
          RepeatMore(key, |waiting|);
          waiting := waiting + [waiters[i]];
          parks := parks + [waiterParks[i]];
          RemoveAt(i);
        }
      }
      SiftEnd(View().waiting, Zip(waiting, Repeat(key, |waiting|), parks), all, key);
    }
  }

  /** A pass from the end over `all` has come down to `i`: what is left of it is `ws`, and `out` is
      what it has taken. */
  ghost predicate Sifted(ws: seq<Waiter>, out: seq<Waiter>, all: seq<Waiter>, i: nat, key: Key) {
    && i <= |ws| && i <= |all| && ws[..i] == all[..i]
    && ws[i..] == NotOfKey(all[i..], key) && out == Reverse(OfKey(all[i..], key))
  }

  lemma SiftStart(all: seq<Waiter>, key: Key)
    ensures Sifted(all, [], all, |all|, key)
  {
  }

  lemma SiftStep(ws: seq<Waiter>, out: seq<Waiter>, all: seq<Waiter>, i: nat, key: Key)
    requires Sifted(ws, out, all, i + 1, key)
    ensures if ws[i].key == key then Sifted(ws[..i] + ws[i + 1..], out + [ws[i]], all, i, key)
            else Sifted(ws, out, all, i, key)
  {
    hide OfKey, NotOfKey, Reverse;
    FilterStep(all, i, key);
    TakeLess(ws, all, i);
    if ws[i].key == key {
      ReverseLast(ws[i], OfKey(all[i + 1..], key));
      var us := ws[..i] + ws[i + 1..];
      assert us[..i] == ws[..i] && us[i..] == ws[i + 1..];
    } else {
      assert ws[i..] == [ws[i]] + ws[i + 1..];
    }
  }

  lemma TakeLess<T>(a: seq<T>, b: seq<T>, i: nat)
    requires i < |a| && i < |b| && a[..i + 1] == b[..i + 1]
    ensures a[i] == b[i] && a[..i] == b[..i]
  {
    var p := a[..i + 1];
    assert p[i] == a[i] && p[i] == b[i];
    assert p[..i] == a[..i] && p[..i] == b[..i];
  }

  lemma SiftEnd(ws: seq<Waiter>, out: seq<Waiter>, all: seq<Waiter>, key: Key)
    requires Sifted(ws, out, all, 0, key)
    ensures ws == NotOfKey(all, key) && out == Reverse(OfKey(all, key))
  {
    assert all[0..] == all && ws[0..] == ws;
  }

  lemma ZipNothing(key: Key)
    ensures Zip([], Repeat(key, 0), []) == []
  {
  }

  lemma FilterStep(ws: seq<Waiter>, i: nat, key: Key)
    requires i < |ws|
    ensures OfKey(ws[i..], key)
            == if ws[i].key == key then [ws[i]] + OfKey(ws[i + 1..], key) else OfKey(ws[i + 1..], key)
    ensures NotOfKey(ws[i..], key)
            == if ws[i].key == key then NotOfKey(ws[i + 1..], key) else [ws[i]] + NotOfKey(ws[i + 1..], key)
  {
    assert ws[i..][1..] == ws[i + 1..];
  }

  function Repeat(key: Key, n: nat): (s: seq<Key>)
    ensures |s| == n
  {
    seq(n, i => key)
  }

  lemma RepeatMore(key: Key, n: nat)
    ensures Repeat(key, n + 1) == Repeat(key, n) + [key]
  {
  }

  lemma ReverseLast<T>(x: T, s: seq<T>)
    ensures Reverse([x] + s) == Reverse(s) + [x]
  {
    assert ([x] + s)[1..] == s;
  }

  lemma ZipAt(reqs: seq<nat>, keys: seq<Key>, parks: seq<nat>, i: nat)
    requires |reqs| == |keys| == |parks| && i < |reqs|
    ensures Zip(reqs, keys, parks)[i] == Waiter(reqs[i], keys[i], parks[i])
  {
  }

  /** The waiters that three arrays hold between them. */
  function Zip(reqs: seq<nat>, keys: seq<Key>, parks: seq<nat>): (ws: seq<Waiter>)
    requires |reqs| == |keys| == |parks|
    ensures |ws| == |reqs|
  {
    seq(|reqs|, i requires 0 <= i < |reqs| => Waiter(reqs[i], keys[i], parks[i]))
  }

  lemma ZipAppend(reqs: seq<nat>, keys: seq<Key>, parks: seq<nat>, r: nat, k: Key, p: nat)
    requires |reqs| == |keys| == |parks|
    ensures Zip(reqs + [r], keys + [k], parks + [p]) == Zip(reqs, keys, parks) + [Waiter(r, k, p)]
  {
  }

  lemma ZipRemove(reqs: seq<nat>, keys: seq<Key>, parks: seq<nat>, i: nat)
    requires |reqs| == |keys| == |parks| && i < |reqs|
    ensures var ws := Zip(reqs, keys, parks);
            Zip(reqs[..i] + reqs[i + 1..], keys[..i] + keys[i + 1..], parks[..i] + parks[i + 1..])
            == ws[..i] + ws[i + 1..]
  {
  }
}
