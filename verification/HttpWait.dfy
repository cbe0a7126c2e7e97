/** Requests and the table of dials together: a request that waits behind another's dial is always on
    its way to an answer. A step is one region, under a request's lock or under the client's. */
module HttpWait {
  import opened Bytes
  import opened HttpDial
  import HttpRace

  type Exchange = HttpRace.Exchange

  /** The requests, the table, and the waits that some thread has in hand: about to ask for the dial,
      granted it, to be answered now that it has ended; those that were answered too late; and those of
      requests that were started on the connection and still bear the mark of the wait. */
  datatype World = World(reqs: map<nat, Exchange>, table: Table, asking: multiset<Waiter>,
                         granted: multiset<Waiter>, released: multiset<Waiter>, left: multiset<Waiter>,
                         started: multiset<Waiter>)

  datatype Step =
    | Region(req: nat, a: HttpRace.Action)   // anything else that happens to a request
    | Begin(req: nat, key: Key)              // marked as waiting, before asking
    | Ask(w: Waiter)                         // dial, or wait
    | Dial(w: Waiter)                        // the dial is its own, so it does not wait
    | Ends(key: Key)                         // a dial has ended: its waiters are taken off the list
    | Up(w: Waiter)                          // and answered with the connection
    | Restart(w: Waiter) | Down(w: Waiter)   // or with none: by starting over, or as a failure

  predicate Can(s: World, a: Step) {
    match a
    case Region(r, b) => r in s.reqs && !b.Park?
    case Begin(r, _) => r in s.reqs
    case Ask(w) => w in s.asking
    case Dial(w) => w in s.granted && w.req in s.reqs
    case Ends(_) => true
    case Up(w) => w in s.released && w.req in s.reqs
    case Restart(w) => w in s.released && w.req in s.reqs
    case Down(w) => w in s.released && w.req in s.reqs
  }

  function With(s: World, r: nat, a: HttpRace.Action): World
    requires r in s.reqs
  {
    s.(reqs := s.reqs[r := HttpRace.Do(s.reqs[r], a).0])
  }

  /** Whether the connection is too late for the request: it has ended, or TCP has won its race. */
  predicate TooLate(x: Exchange) { !x.held.bound || (x.race.racing && x.race.raced && !x.race.racedQuic) }

  /** Whether QUIC has won the race already: its claim succeeds again, and leaves the wait as it is. */
  predicate WonBefore(x: Exchange) { x.held.bound && x.race.racing && x.race.raced && x.race.racedQuic }

  function OnBegin(s: World, r: nat, key: Key): World
    requires r in s.reqs
  {
    var t := With(s, r, HttpRace.Park);
    t.(asking := t.asking + multiset{Waiter(r, key, t.reqs[r].park)})
  }

  function OnAsk(s: World, w: Waiter): World {
    var (t, mine) := Claim(s.table, w);
    var u := s.(table := t, asking := s.asking - multiset{w});
    if mine then u.(granted := u.granted + multiset{w}) else u
  }

  function OnEnds(s: World, key: Key): World {
    var (t, out) := Done(s.table, key);
    s.(table := t, released := s.released + multiset(out))
  }

  function OnUp(s: World, w: Waiter): World
    requires w.req in s.reqs
  {
    var x := s.reqs[w.req];
    var t := s.(released := s.released - multiset{w});
    var u := if x.held.bound then With(t, w.req, HttpRace.Claim(true, w.park, None)) else t;
    if TooLate(x) then u.(left := u.left + multiset{w})
    else if WonBefore(x) then u.(started := u.started + multiset{w})
    else u
  }

  function OnRestart(s: World, w: Waiter): World
    requires w.req in s.reqs
  {
    var t := With(s, w.req, HttpRace.Unpark(w.park));
    if HttpRace.Do(s.reqs[w.req], HttpRace.Unpark(w.park)).1.yes
    then t.(released := s.released - multiset{w}) else t
  }

  function Do(s: World, a: Step): World
    requires Can(s, a)
  {
    match a
    case Region(r, b) => With(s, r, b)
    case Begin(r, key) => OnBegin(s, r, key)
    case Ask(w) => OnAsk(s, w)
    case Dial(w) => With(s, w.req, HttpRace.OwnDial).(granted := s.granted - multiset{w})
    case Ends(key) => OnEnds(s, key)
    case Up(w) => OnUp(s, w)
    case Restart(w) => OnRestart(s, w)
    case Down(w) => With(s, w.req, HttpRace.Fails(true, w.park)).(released := s.released - multiset{w})
  }

  /** Somebody has the wait: on its way to the list, on it, or on its way to an answer; or it has been
      answered. */
  predicate InHand(s: World, w: Waiter) {
    || w in s.asking || w in s.granted || w in s.table.waiting || w in s.released
    || w in s.left || w in s.started
  }

  /** Every request in a wait is in somebody's hand, and every wait on the list is for an origin that
      is being dialled. */
  ghost predicate Inv(s: World) {
    && HttpDial.Inv(s.table)
    && (forall r :: r in s.reqs && s.reqs[r].park != 0 ==> exists key :: InHand(s, Waiter(r, key, s.reqs[r].park)))
  }

  // ----- What a step does to the waits

  /** No region but Park begins a wait. */
  lemma ParkStep(x: Exchange, a: HttpRace.Action)
    requires !a.Park?
    ensures var y := HttpRace.Do(x, a).0; y.park == x.park || y.park == 0
  {
    hide HttpRace.Live, HttpRace.NextPark;
    match a
    case Claim(_, _, _) =>
    case Fails(_, _) =>
    case _ =>
  }

  lemma {:induction false} OfKeyIs(ws: seq<Waiter>, key: Key)
    ensures forall w :: w in OfKey(ws, key) <==> w in ws && w.key == key
  {
    if ws != [] {
      OfKeyIs(ws[1..], key);
      assert forall w :: w in ws <==> w == ws[0] || w in ws[1..];
    }
  }

  lemma {:induction false} ReverseHas(ws: seq<Waiter>)
    ensures forall w :: w in Reverse(ws) <==> w in ws
  {
    if ws != [] {
      ReverseHas(ws[1..]);
      assert forall w :: w in ws <==> w == ws[0] || w in ws[1..];
    }
  }

  /** Whoever is taken off the list is handed out. */
  lemma DoneHas(t: Table, key: Key, w: Waiter)
    requires w in t.waiting
    ensures w in Done(t, key).0.waiting || w in multiset(Done(t, key).1)
  {
    OfKeyIs(t.waiting, key);
    NotOfKeyIs(t.waiting, key);
    ReverseHas(OfKey(t.waiting, key));
  }

  /** An answer ends the wait it is for, unless it comes too late to matter or QUIC had won already; and
      it starts the request exactly if it does not come too late. */
  lemma AnswerEndsWait(x: Exchange, token: nat)
    requires token != 0 && x.park == token
    ensures var (y, r) := HttpRace.Do(x, HttpRace.Claim(true, token, None));
            && (x.held.bound && y.park == 0 <==> !TooLate(x) && !WonBefore(x))
            && (x.held.bound && r.yes <==> !TooLate(x))
    ensures HttpRace.Do(x, HttpRace.Unpark(token)).1.yes <==> HttpRace.Do(x, HttpRace.Unpark(token)).0.park == 0
    ensures HttpRace.Do(x, HttpRace.Fails(true, token)).0.park == 0
  {
    hide HttpRace.Live;
  }

  /** What a step that answers a wait does to it, and to the others. */
  lemma AnswerKeeps(s: World, a: Step, w: Waiter)
    requires Can(s, a) && (a.Up? || a.Restart? || a.Down?)
    requires InHand(s, w) && w.req in s.reqs && s.reqs[w.req].park == w.park != 0
    ensures Do(s, a).reqs[w.req].park == w.park ==> InHand(Do(s, a), w)
  {
    hide HttpRace.Do, HttpRace.Live, OnBegin, OnAsk, OnEnds;
    if a.w == w {
      AnswerEndsWait(s.reqs[w.req], w.park);
    }
  }

  lemma StillInHand(s: World, a: Step, w: Waiter)
    requires Can(s, a) && InHand(s, w) && w.req in s.reqs && s.reqs[w.req].park == w.park != 0
    ensures Do(s, a).reqs[w.req].park == w.park ==> InHand(Do(s, a), w)
  {
    hide HttpRace.Do, Claim, Done, OnUp, OnRestart;
    if a.Up? || a.Restart? || a.Down? {
      AnswerKeeps(s, a, w);
    } else if a.Ask? {
      AskKeeps(s.table, a.w, w);
    } else if a.Dial? {
      DialClears(s.reqs[a.w.req]);
    } else if a.Ends? && w in s.table.waiting {
      DoneHas(s.table, a.key, w);
    }
  }

  lemma AskKeeps(t: Table, v: Waiter, w: Waiter)
    ensures var (u, mine) := Claim(t, v);
            (w in t.waiting ==> w in u.waiting) && (!mine ==> v in u.waiting)
  {
  }

  lemma DialClears(x: Exchange)
    ensures HttpRace.Do(x, HttpRace.OwnDial).0.park == 0
  {
  }

  lemma WithPark(s: World, q: nat, a: HttpRace.Action, r: nat)
    requires q in s.reqs && r in s.reqs && !a.Park?
    ensures var t := With(s, q, a); r in t.reqs && t.reqs[r].park in {0, s.reqs[r].park}
  {
    hide HttpRace.Do;
    ParkStep(s.reqs[q], a);
  }

  lemma AnswerBegins(s: World, a: Step, r: nat)
    requires Can(s, a) && (a.Up? || a.Restart? || a.Down? || a.Dial?) && r in s.reqs
    ensures r in Do(s, a).reqs && Do(s, a).reqs[r].park in {0, s.reqs[r].park}
  {
    hide HttpRace.Do, With, OnBegin, OnAsk, OnEnds, TooLate, WonBefore;
    if a.Up? {
      WithPark(s.(released := s.released - multiset{a.w}), a.w.req, HttpRace.Claim(true, a.w.park, None), r);
    } else if a.Restart? {
      WithPark(s, a.w.req, HttpRace.Unpark(a.w.park), r);
    } else if a.Down? {
      WithPark(s, a.w.req, HttpRace.Fails(true, a.w.park), r);
    } else {
      WithPark(s, a.w.req, HttpRace.OwnDial, r);
    }
  }

  /** Which wait a request is in after a step: the one before it, none, or the one it has just begun. */
  lemma WaitAfter(s: World, a: Step, r: nat)
    requires Can(s, a) && r in s.reqs
    ensures var t := Do(s, a);
            && r in t.reqs
            && (t.reqs[r].park in {0, s.reqs[r].park}
                || (a.Begin? && a.req == r && Waiter(r, a.key, t.reqs[r].park) in t.asking))
  {
    hide HttpRace.Do, Claim, Done, OnUp, OnRestart;
    if a.Region? {
      ParkStep(s.reqs[a.req], a.a);
    } else if a.Up? || a.Restart? || a.Down? || a.Dial? {
      AnswerBegins(s, a, r);
    }
  }

  lemma StepKeepsInv(s: World, a: Step)
    requires Inv(s) && Can(s, a)
    ensures Inv(Do(s, a))
  {
    hide Do, HttpDial.Inv, InHand;
    TableKept(s, a);
    var t := Do(s, a);
    assert t.reqs.Keys == s.reqs.Keys by {
      SameRequests(s, a);
    }
    forall r | r in t.reqs && t.reqs[r].park != 0
      ensures exists key :: InHand(t, Waiter(r, key, t.reqs[r].park))
    {
      WaitAfter(s, a, r);
      if t.reqs[r].park == s.reqs[r].park {
        var key :| InHand(s, Waiter(r, key, s.reqs[r].park));
        StillInHand(s, a, Waiter(r, key, s.reqs[r].park));
        assert InHand(t, Waiter(r, key, t.reqs[r].park));
      } else {
        AskingInHand(t, Waiter(r, a.key, t.reqs[r].park));
      }
    }
  }

  lemma SameRequests(s: World, a: Step)
    requires Can(s, a)
    ensures Do(s, a).reqs.Keys == s.reqs.Keys
  {
    hide HttpRace.Do, Claim, Done;
  }

  lemma AskingInHand(s: World, w: Waiter)
    requires w in s.asking
    ensures InHand(s, w)
  {
  }

  lemma TableKept(s: World, a: Step)
    requires Can(s, a) && HttpDial.Inv(s.table)
    ensures HttpDial.Inv(Do(s, a).table)
  {
    hide HttpRace.Do, HttpDial.Inv, Claim, Done;
    if a.Ask? {
      HttpDial.StepKeepsInv(s.table, DoClaim(a.w));
    } else if a.Ends? {
      HttpDial.StepKeepsInv(s.table, DoDone(a.key));
    }
  }

  // ----- Every run

  function Run(s: World, run: seq<Step>): Option<World>
    decreases |run|
  {
    if run == [] then Some(s)
    else if !Can(s, run[0]) then None
    else Run(Do(s, run[0]), run[1..])
  }

  lemma {:induction false} InvAlways(s: World, run: seq<Step>)
    requires Inv(s) && Run(s, run).Some?
    ensures Inv(Run(s, run).value)
    decreases |run|
  {
    hide Inv, Can, Do;
    if run != [] {
      StepKeepsInv(s, run[0]);
      InvAlways(Do(s, run[0]), run[1..]);
    }
  }

  /** Over every run in which requests start out waiting for nothing: a request in a wait is about to
      ask, has been granted the dial, is on the list of an origin that is being dialled, or has been
      taken off it to be answered; or the answer has come too late for it; or it has been started on the
      connection, QUIC having won its race before. */
  lemma NobodyStranded(s: World, run: seq<Step>, r: nat) returns (w: Waiter)
    requires s.table == EMPTY && forall q :: q in s.reqs ==> s.reqs[q].park == 0
    requires Run(s, run).Some? && r in Run(s, run).value.reqs && Run(s, run).value.reqs[r].park != 0
    ensures var t := Run(s, run).value;
            && w.req == r && w.park == t.reqs[r].park
            && (w in t.asking || w in t.granted || (w in t.table.waiting && w.key in t.table.dialing)
                || w in t.released || w in t.left || w in t.started)
  {
    hide Run;
    InvAlways(s, run);
    var t := Run(s, run).value;
    var key :| InHand(t, Waiter(r, key, t.reqs[r].park));
    w := Waiter(r, key, t.reqs[r].park);
  }

  // ----- Every wait is in one place

  /** How often a wait is on its way to the list, on it, granted, or on its way to an answer. */
  function Places(s: World, w: Waiter): nat {
    s.asking[w] + Count(s.table.waiting, w) + s.granted[w] + s.released[w]
  }

  function Entered(s: World, a: Step, w: Waiter): nat
    requires Can(s, a)
  {
    if a.Begin? && w == Waiter(a.req, a.key, HttpRace.NextPark(s.reqs[a.req].parkSeq)) then 1 else 0
  }

  /** A restart that finds the request racing leaves the wait to be answered as a failure. */
  function Answered(s: World, a: Step, w: Waiter): nat
    requires Can(s, a)
  {
    match a
    case Dial(v) => if v == w then 1 else 0
    case Up(v) => if v == w then 1 else 0
    case Down(v) => if v == w then 1 else 0
    case Restart(v) => if v == w && s.reqs[v.req].park == v.park && !s.reqs[v.req].race.racing then 1 else 0
    case _ => 0
  }

  lemma {:induction false} CountIs<T>(s: seq<T>, x: T)
    ensures multiset(s)[x] == Count(s, x)
  {
    if s != [] {
      CountIs(s[1..], x);
      assert s == [s[0]] + s[1..];
    }
  }

  predicate Balances(s: World, a: Step, w: Waiter)
    requires Can(s, a)
  {
    Places(Do(s, a), w) + Answered(s, a, w) == Places(s, w) + Entered(s, a, w)
  }

  lemma BeginBalances(s: World, a: Step, w: Waiter)
    requires Can(s, a) && a.Begin?
    ensures Balances(s, a, w)
  {
    hide HttpRace.Do, Count, HttpRace.NextPark;
    ParkIs(s.reqs[a.req]);
  }

  lemma AskBalances(s: World, a: Step, w: Waiter)
    requires Can(s, a) && a.Ask?
    ensures Balances(s, a, w)
  {
    hide HttpRace.Do, Count;
    CountAppend(s.table.waiting, a.w, w);
  }

  lemma EndBalances(s: World, a: Step, w: Waiter)
    requires Can(s, a) && a.Ends?
    ensures Balances(s, a, w)
  {
    hide HttpRace.Do, Count, OfKey, NotOfKey, Without, Reverse;
    CountIs(Done(s.table, a.key).1, w);
    CountSplit(s.table.waiting, a.key, w);
    CountReverse(OfKey(s.table.waiting, a.key), w);
  }

  lemma AnswerBalances(s: World, a: Step, w: Waiter)
    requires Can(s, a) && (a.Dial? || a.Down? || a.Region?)
    ensures Balances(s, a, w)
  {
    hide HttpRace.Do, Count;
  }

  lemma UpBalances(s: World, a: Step, w: Waiter)
    requires Can(s, a) && a.Up?
    ensures Balances(s, a, w)
  {
    hide HttpRace.Do, Count, TooLate, WonBefore;
  }

  lemma RestartBalances(s: World, a: Step, w: Waiter)
    requires Can(s, a) && a.Restart?
    ensures Balances(s, a, w)
  {
    hide HttpRace.Do, Count;
    UnparkIs(s.reqs[a.w.req], a.w.park);
  }

  lemma PlacesStep(s: World, a: Step, w: Waiter)
    requires Can(s, a)
    ensures Balances(s, a, w)
  {
    hide Balances, Can;
    match a
    case Begin(_, _) => BeginBalances(s, a, w);
    case Ask(_) => AskBalances(s, a, w);
    case Ends(_) => EndBalances(s, a, w);
    case Up(_) => UpBalances(s, a, w);
    case Restart(_) => RestartBalances(s, a, w);
    case _ => AnswerBalances(s, a, w);
  }

  lemma ParkIs(x: Exchange)
    ensures HttpRace.Do(x, HttpRace.Park).0.park == HttpRace.NextPark(x.parkSeq)
  {
  }

  lemma UnparkIs(x: Exchange, token: nat)
    ensures HttpRace.Do(x, HttpRace.Unpark(token)).1.yes <==> x.park == token && !x.race.racing
  {
  }

  function TimesEntered(s: World, run: seq<Step>, w: Waiter): nat
    requires Run(s, run).Some?
    decreases |run|
  {
    if run == [] then 0 else Entered(s, run[0], w) + TimesEntered(Do(s, run[0]), run[1..], w)
  }

  function TimesAnswered(s: World, run: seq<Step>, w: Waiter): nat
    requires Run(s, run).Some?
    decreases |run|
  {
    if run == [] then 0 else Answered(s, run[0], w) + TimesAnswered(Do(s, run[0]), run[1..], w)
  }

  /** Over every run a wait has been answered as often as it was entered, less the times it is still in
      somebody's hand: none is answered twice and none is lost. */
  lemma {:induction false} WaitsBalance(s: World, run: seq<Step>, w: Waiter)
    requires Run(s, run).Some?
    ensures Places(Run(s, run).value, w) + TimesAnswered(s, run, w) == Places(s, w) + TimesEntered(s, run, w)
    decreases |run|
  {
    hide Do, Can, Places, Entered, Answered;
    if run != [] {
      PlacesStep(s, run[0], w);
      WaitsBalance(Do(s, run[0]), run[1..], w);
    }
  }
}
