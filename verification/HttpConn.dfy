/** One HTTP/1.1 connection shared by its own worker and by callers on any thread: who may use it,
    and what each of them hears. Every atomic operation, and every stretch the worker runs alone, is
    one indivisible step, and the steps of different threads come in any order. */
module HttpConn {
  import opened Bytes

  /** How far a call of request() has got. */
  datatype Phase =
    | Fresh       // called
    | Claimed     // holds the busy flag
    | Here        // on the worker already, and starting there
    | Stored      // left for the worker, which has yet to be summoned
    | Unheard     // the summons went to nobody
    | TookBack    // took the request back, and has yet to let the flag go
    | Yes | No    // answered

  /** A call, with the events its request has been sent. */
  datatype Call = Call(phase: Phase, events: nat, ends: nat)

  /** What the worker is in the middle of. */
  datatype Worker =
    | Free
    | Beginning(c: nat, here: bool)   // about to write a request
    | Undoing(c: nat)                 // a request that could not be written here
    | Ending(c: nat)                  // about to detach the request
    | Freeing(c: nat)                 // detached, and the flag is still up
    | Telling(c: nat)                 // about to make the terminal callback

  datatype Conn = Conn(
    busy: bool,
    startReq: Option<nat>,    // the request left for the worker
    req: Option<nat>,         // the request bound
    over: bool,               // failed or spent
    worker: Worker,
    calls: map<nat, Call>)

  const OPEN := Conn(false, None, None, false, Free, map[])

  // ----- The steps

  datatype Step =
    | Enter(c: nat)                 // a call begins
    | RefuseEarly(c: nat)           // the connection is known to be over
    | Claim(c: nat)                 // compare and exchange on the busy flag
    | StartHere(c: nat)             // the caller is the worker
    | Store(c: nat)                 // leaves the request for the worker
    | Handoff(c: nat, heard: bool)  // summons it
    | TakeBack(c: nat)              // compare and exchange on the pending request
    | LetGo(c: nat)
    | TakePending                   // the worker exchanges the pending request for none
    | Begin(written: bool)          // and tries to write it
    | Undo
    | Event                         // the response is coming in
    | End                           // the response is complete, or the connection died
    | Unbind | ClearBusy | Tell
    | Die                           // the connection closes or fails

  predicate In(s: Conn, c: nat, p: Phase) { c in s.calls && s.calls[c].phase == p }

  predicate Enabled(s: Conn, a: Step) {
    match a
    case Enter(c) => c !in s.calls
    case RefuseEarly(c) => In(s, c, Fresh) && s.over
    case Claim(c) => In(s, c, Fresh)
    case StartHere(c) => In(s, c, Claimed) && s.worker.Free?
    case Store(c) => In(s, c, Claimed)
    case Handoff(c, _) => In(s, c, Stored)
    case TakeBack(c) => In(s, c, Unheard)
    case LetGo(c) => In(s, c, TookBack)
    case TakePending => s.worker.Free? && s.startReq.Some?
    case Begin(_) => s.worker.Beginning? && s.worker.c in s.calls
    case Undo => s.worker.Undoing? && s.worker.c in s.calls
    case Event => s.worker.Free? && s.req.Some? && s.req.value in s.calls
    case End => s.worker.Free? && s.req.Some?
    case Unbind => s.worker.Ending?
    case ClearBusy => s.worker.Freeing?
    case Tell => s.worker.Telling? && s.worker.c in s.calls
    case Die => true
  }

  function Put(s: Conn, c: nat, p: Phase): Conn
    requires c in s.calls
  {
    s.(calls := s.calls[c := s.calls[c].(phase := p)])
  }

  function DoBegin(s: Conn, written: bool): Conn
    requires s.worker.Beginning? && s.worker.c in s.calls
  {
    var c := s.worker.c;
    if written && !s.over && s.req.None? then
      var t := s.(req := Some(c), worker := Free);
      if s.worker.here then Put(t, c, Yes) else t
    else if s.worker.here then s.(worker := Undoing(c))
    else s.(req := Some(c), worker := Ending(c))
  }

  function Do(s: Conn, a: Step): Conn
    requires Enabled(s, a)
  {
    match a
    case Enter(c) => s.(calls := s.calls[c := Call(Fresh, 0, 0)])
    case RefuseEarly(c) => Put(s, c, No)
    case Claim(c) => if s.busy then Put(s, c, No) else Put(s.(busy := true), c, Claimed)
    case StartHere(c) => Put(s.(worker := Beginning(c, true)), c, Here)
    case Store(c) => Put(s.(startReq := Some(c)), c, Stored)
    case Handoff(c, heard) => Put(s, c, if heard then Yes else Unheard)
    case TakeBack(c) =>
      if s.startReq == Some(c) then Put(s.(startReq := None), c, TookBack) else Put(s, c, Yes)
    case LetGo(c) => Put(s.(busy := false), c, No)
    case TakePending => s.(startReq := None, worker := Beginning(s.startReq.value, false))
    case Begin(written) => DoBegin(s, written)
    case Undo => Put(s.(busy := false, worker := Free), s.worker.c, No)
    case Event =>
      var k := s.calls[s.req.value];
      s.(calls := s.calls[s.req.value := k.(events := k.events + 1)])
    case End => s.(worker := Ending(s.req.value))
    case Unbind => s.(req := None, worker := Freeing(s.worker.c))
    case ClearBusy => s.(busy := false, worker := Telling(s.worker.c))
    case Tell =>
      var k := s.calls[s.worker.c];
      s.(worker := Free, calls := s.calls[s.worker.c := k.(ends := k.ends + 1)])
    case Die => s.(over := true)
  }

  // ----- What every reachable state satisfies

  function One(b: bool): nat { if b then 1 else 0 }

  /** In how many places the request of a call is to be found, once it has been left for the worker
      or taken by it, until its end has been told. */
  function Places(s: Conn, c: nat): nat {
    One(s.startReq == Some(c)) + One(s.req == Some(c))
    + One(s.worker == Beginning(c, true) || s.worker == Beginning(c, false) || s.worker == Undoing(c)
          || s.worker == Freeing(c) || s.worker == Telling(c))
  }

  /** Whether a call has the busy flag up on its account. */
  predicate Holds(s: Conn, c: nat) {
    && c in s.calls
    && (|| s.calls[c].phase.Claimed? || s.calls[c].phase.TookBack? || s.calls[c].phase.Here?
        || (Places(s, c) > 0 && s.worker != Telling(c)))
  }

  predicate CallOk(s: Conn, c: nat)
    requires c in s.calls
  {
    var k := s.calls[c];
    match k.phase
    case Fresh => Places(s, c) == 0 && k.events == 0 && k.ends == 0
    case No => Places(s, c) == 0 && k.events == 0 && k.ends == 0
    case Claimed => Places(s, c) == 0 && k.events == 0 && k.ends == 0
    case TookBack => Places(s, c) == 0 && k.events == 0 && k.ends == 0
    case Here => k.events == 0 && k.ends == 0 && Places(s, c) == 1
                 && (s.worker == Beginning(c, true) || s.worker == Undoing(c))
    case _ => Places(s, c) + k.ends == 1 && s.worker != Beginning(c, true) && s.worker != Undoing(c)
              && (s.startReq == Some(c) ==> k.events == 0)
  }

  /** What holds of one call, `o` being the one that has the flag. */
  predicate Ok(s: Conn, o: Option<nat>, c: nat) {
    if c in s.calls then CallOk(s, c) && (Holds(s, c) <==> o == Some(c))
    else Places(s, c) == 0 && o != Some(c)
  }

  predicate Fixed(s: Conn, o: Option<nat>) {
    (s.busy <==> o.Some?) && (s.worker.Ending? ==> s.req == Some(s.worker.c))
  }

  /** The request of every call is in at most one place, and in exactly one from when it was left or
      accepted until its end was told; and the flag is up exactly while one call, `o`, holds it. */
  ghost predicate Inv(s: Conn, o: Option<nat>) {
    Fixed(s, o) && forall c: nat :: Ok(s, o, c)
  }

  /** Who holds the flag after a step. */
  function Owner(s: Conn, o: Option<nat>, a: Step): Option<nat> {
    match a
    case Claim(c) => if s.busy then o else Some(c)
    case LetGo(_) => None
    case Undo => None
    case ClearBusy => None
    case _ => o
  }

  /** The call a step is about. */
  function Actor(s: Conn, a: Step): nat
    requires Enabled(s, a)
  {
    match a
    case TakePending => s.startReq.value
    case Begin(_) => s.worker.c
    case Undo => s.worker.c
    case Event => s.req.value
    case End => s.req.value
    case Unbind => s.worker.c
    case ClearBusy => s.worker.c
    case Tell => s.worker.c
    case Die => 0
    case _ => a.c
  }

  predicate IsCaller(a: Step) {
    || a.Enter? || a.RefuseEarly? || a.Claim? || a.Store? || a.Handoff? || a.TakeBack? || a.LetGo?
    || a.StartHere?
  }

  lemma CallerStep(s: Conn, o: Option<nat>, a: Step, c: nat)
    requires Fixed(s, o) && Enabled(s, a) && IsCaller(a) && Ok(s, o, c) && Ok(s, o, a.c)
    ensures Ok(Do(s, a), Owner(s, o, a), c) && Fixed(Do(s, a), Owner(s, o, a))
  {
    if a.TakeBack? {
      TakeBackStep(s, o, a.c, c);
    } else if a.Store? {
      StoreStep(s, o, a.c, c);
    }
  }

  lemma TakeBackStep(s: Conn, o: Option<nat>, b: nat, c: nat)
    requires Fixed(s, o) && In(s, b, Unheard) && Ok(s, o, c) && Ok(s, o, b)
    ensures Ok(Do(s, TakeBack(b)), o, c) && Fixed(Do(s, TakeBack(b)), o)
  {
  }

  lemma StoreStep(s: Conn, o: Option<nat>, b: nat, c: nat)
    requires Fixed(s, o) && In(s, b, Claimed) && Ok(s, o, c) && Ok(s, o, b)
    ensures Ok(Do(s, Store(b)), o, c) && Fixed(Do(s, Store(b)), o)
  {
  }

  lemma WorkerStep(s: Conn, o: Option<nat>, a: Step, c: nat)
    requires Fixed(s, o) && Enabled(s, a) && !IsCaller(a) && Ok(s, o, c) && Ok(s, o, Actor(s, a))
    ensures Ok(Do(s, a), Owner(s, o, a), c) && Fixed(Do(s, a), Owner(s, o, a))
  {
    if a.Begin? {
      BeginStep(s, o, a.written, c);
    }
  }

  lemma BeginStep(s: Conn, o: Option<nat>, written: bool, c: nat)
    requires Fixed(s, o) && s.worker.Beginning? && s.worker.c in s.calls && Ok(s, o, c) && Ok(s, o, s.worker.c)
    ensures Ok(DoBegin(s, written), o, c) && Fixed(DoBegin(s, written), o)
  {
  }

  lemma StepKeepsInv(s: Conn, o: Option<nat>, a: Step)
    requires Inv(s, o) && Enabled(s, a)
    ensures Inv(Do(s, a), Owner(s, o, a))
  {
    hide Do, Ok, Fixed, Enabled, Owner;
    forall c: nat
      ensures Ok(Do(s, a), Owner(s, o, a), c) && Fixed(Do(s, a), Owner(s, o, a))
    {
      assert Ok(s, o, c) && Ok(s, o, Actor(s, a));
      if IsCaller(a) {
        CallerStep(s, o, a, c);
      } else {
        WorkerStep(s, o, a, c);
      }
    }
    assert Ok(Do(s, a), Owner(s, o, a), 0);
  }

  // ----- Every interleaving

  /** The state after a run, if each of its steps was possible when it came. */
  function Run(s: Conn, run: seq<Step>): Option<Conn>
    decreases |run|
  {
    if run == [] then Some(s)
    else if !Enabled(s, run[0]) then None
    else Run(Do(s, run[0]), run[1..])
  }

  lemma {:induction false} RunKeepsInv(s: Conn, o: Option<nat>, run: seq<Step>) returns (p: Option<nat>)
    requires Inv(s, o) && Run(s, run).Some?
    ensures Inv(Run(s, run).value, p)
    decreases |run|
  {
    hide Do, Inv, Enabled, Owner;
    p := o;
    if run != [] {
      StepKeepsInv(s, o, run[0]);
      p := RunKeepsInv(Do(s, run[0]), Owner(s, o, run[0]), run[1..]);
    }
  }

  lemma OpenOk()
    ensures Inv(OPEN, None)
  {
  }

  /** Whatever callers and worker do: at most one request is pending or bound; a call answered no has
      heard nothing; a call answered yes has been told of its end once, or its request is still in
      one place, pending, bound or being ended, and never both. */
  lemma OneRequestAtATime(run: seq<Step>, c: nat, d: nat)
    requires Run(OPEN, run).Some?
    ensures var s := Run(OPEN, run).value;
            && !(s.startReq.Some? && s.req.Some?)
            && (c in s.calls && s.calls[c].phase.No? ==> s.calls[c].events == 0 && s.calls[c].ends == 0)
            && (c in s.calls && s.calls[c].phase.Yes? ==> s.calls[c].ends + Places(s, c) == 1)
            && (Holds(s, c) && Holds(s, d) ==> c == d && s.busy)
  {
    hide Run;
    OpenOk();
    var o := RunKeepsInv(OPEN, None, run);
    var s := Run(OPEN, run).value;
    assert Ok(s, o, c) && Ok(s, o, d);
    var p := if s.startReq.Some? then s.startReq.value else c;
    var q := if s.req.Some? then s.req.value else d;
    assert Ok(s, o, p) && Ok(s, o, q);
  }

  /** The answer and what follows from it stay: nothing that happens later reaches a call answered
      no, and a call that has been told of its end hears nothing more. */
  lemma AnswersStand(s: Conn, o: Option<nat>, a: Step, c: nat)
    requires Inv(s, o) && Enabled(s, a) && c in s.calls
    ensures var t := Do(s, a);
            && c in t.calls && t.calls[c].events >= s.calls[c].events && t.calls[c].ends >= s.calls[c].ends
            && (s.calls[c].phase.No? ==> t.calls[c] == s.calls[c])
            && (s.calls[c].phase.Yes? ==> t.calls[c].phase.Yes?)
            && (s.calls[c].ends > 0 ==> t.calls[c].events == s.calls[c].events && t.calls[c].ends == s.calls[c].ends)
  {
    assert Ok(s, o, c);
    assert Ok(s, o, Actor(s, a));
  }

  // ----- Who is told yes

  /** The request of a call that was told yes is still to be picked up. */
  predicate Promised(s: Conn, c: nat) { In(s, c, Yes) && s.startReq == Some(c) }

  lemma PromiseStep(s: Conn, o: Option<nat>, a: Step, c: nat)
    requires Inv(s, o) && Enabled(s, a) && Promised(Do(s, a), c)
    ensures Promised(s, c) || a == Handoff(c, true)
  {
    assert Ok(s, o, c);
    assert Ok(s, o, Actor(s, a));
  }

  /** Nobody is told yes on the strength of a request that nobody was summoned for: while it waits to be
      picked up, a worker has heard the call. */
  lemma {:induction false} YesWasHeard(s: Conn, o: Option<nat>, run: seq<Step>, c: nat) returns (i: nat)
    requires Inv(s, o) && Run(s, run).Some? && !Promised(s, c) && Promised(Run(s, run).value, c)
    ensures i < |run| && run[i] == Handoff(c, true)
    decreases |run|
  {
    hide Do, Enabled, Inv, Promised;
    var t := Do(s, run[0]);
    StepKeepsInv(s, o, run[0]);
    if Promised(t, c) {
      PromiseStep(s, o, run[0], c);
      return 0;
    } else {
      i := YesWasHeard(t, Owner(s, o, run[0]), run[1..], c);
      i := i + 1;
    }
  }

  // ----- What a connection that is over, and one that is free, will do

  /** The request of call `c` has heard nothing from a connection that is over, and is bound to it at most
      to be told so. */
  predicate Untouched(s: Conn, c: nat) {
    s.over && (c in s.calls ==> s.calls[c].events == 0) && (s.req == Some(c) ==> s.worker == Ending(c))
  }

  lemma UntouchedStep(s: Conn, a: Step, c: nat)
    requires Untouched(s, c) && Enabled(s, a)
    ensures Untouched(Do(s, a), c)
  {
  }

  /** Once a connection is over nothing is ever read into a request that was not bound to it before,
      whatever callers do: one left for the worker too late is only ended. */
  lemma {:induction false} DeadServesNobody(s: Conn, run: seq<Step>, c: nat)
    requires Untouched(s, c) && Run(s, run).Some?
    ensures Untouched(Run(s, run).value, c)
    decreases |run|
  {
    hide Do, Untouched;
    if run != [] {
      UntouchedStep(s, run[0], c);
      DeadServesNobody(Do(s, run[0]), run[1..], c);
    }
  }

  predicate Idle(s: Conn) { !s.busy && !s.over && s.worker.Free? && s.req.None? && s.startReq.None? }

  /** A call from the worker itself, or from any other thread. */
  function Asks(c: nat, here: bool): seq<Step> {
    if here then [Enter(c), Claim(c), StartHere(c), Begin(true)]
    else [Enter(c), Claim(c), Store(c), Handoff(c, true), TakePending, Begin(true)]
  }

  const ENDS: seq<Step> := [End, Unbind, ClearBusy, Tell]

  lemma {:induction false} RunSplits(s: Conn, a: seq<Step>, b: seq<Step>)
    ensures Run(s, a + b) == if Run(s, a).None? then None else Run(Run(s, a).value, b)
    decreases |a|
  {
    hide Do, Enabled;
    if a == [] {
      assert a + b == b;
    } else {
      assert (a + b)[1..] == a[1..] + b;
      if Enabled(s, a[0]) {
        RunSplits(Do(s, a[0]), a[1..], b);
      }
    }
  }

  lemma Takes(s: Conn, a: Step, rest: seq<Step>)
    ensures Run(s, [a] + rest) == if Enabled(s, a) then Run(Do(s, a), rest) else None
  {
    hide Do, Enabled;
    assert ([a] + rest)[1..] == rest;
  }

  lemma Stays(s: Conn)
    ensures Run(s, []) == Some(s)
  {
  }

  /** A connection with nothing to do takes the next request, from whichever thread, and says yes. */
  lemma IdleTakes(s: Conn, c: nat, here: bool)
    requires Idle(s) && c !in s.calls
    ensures Run(s, Asks(c, here))
            == Some(s.(busy := true, req := Some(c), calls := s.calls[c := Call(Yes, 0, 0)]))
  {
    hide Run;
    var s1 := s.(calls := s.calls[c := Call(Fresh, 0, 0)]);
    var s2 := s.(busy := true, calls := s.calls[c := Call(Claimed, 0, 0)]);
    var run := Asks(c, here);
    assert run == [Enter(c)] + ([Claim(c)] + run[2..]);
    Takes(s, Enter(c), [Claim(c)] + run[2..]);
    Takes(s1, Claim(c), run[2..]);
    assert s1.calls[c := Call(Claimed, 0, 0)] == s2.calls;
    if here {
      HereTakes(s2, c);
    } else {
      ThereTakes(s2, c);
    }
    assert s2.calls[c := Call(Yes, 0, 0)] == s.calls[c := Call(Yes, 0, 0)];
  }

  lemma HereTakes(s: Conn, c: nat)
    requires s.busy && !s.over && s.worker.Free? && s.req.None? && c in s.calls && s.calls[c] == Call(Claimed, 0, 0)
    ensures Run(s, Asks(c, true)[2..]) == Some(s.(req := Some(c), calls := s.calls[c := Call(Yes, 0, 0)]))
  {
    hide Run;
    var s1 := s.(worker := Beginning(c, true), calls := s.calls[c := Call(Here, 0, 0)]);
    assert Asks(c, true)[2..] == [StartHere(c)] + ([Begin(true)] + []);
    Takes(s, StartHere(c), [Begin(true)] + []);
    Takes(s1, Begin(true), []);
    var s2 := Do(s1, Begin(true));
    assert s2.calls == s.calls[c := Call(Yes, 0, 0)];
    Stays(s2);
  }

  lemma ThereTakes(s: Conn, c: nat)
    requires s.busy && !s.over && s.worker.Free? && s.req.None? && s.startReq.None?
    requires c in s.calls && s.calls[c] == Call(Claimed, 0, 0)
    ensures Run(s, Asks(c, false)[2..]) == Some(s.(req := Some(c), calls := s.calls[c := Call(Yes, 0, 0)]))
  {
    hide Run;
    var s1 := s.(startReq := Some(c), calls := s.calls[c := Call(Stored, 0, 0)]);
    var s2 := s1.(calls := s.calls[c := Call(Yes, 0, 0)]);
    var s3 := s2.(startReq := None, worker := Beginning(c, false));
    assert Asks(c, false)[2..] == [Store(c)] + ([Handoff(c, true)] + ([TakePending] + ([Begin(true)] + [])));
    Takes(s, Store(c), [Handoff(c, true)] + ([TakePending] + ([Begin(true)] + [])));
    Takes(s1, Handoff(c, true), [TakePending] + ([Begin(true)] + []));
    assert Do(s1, Handoff(c, true)).calls == s2.calls;
    Takes(s2, TakePending, [Begin(true)] + []);
    Takes(s3, Begin(true), []);
    Stays(Do(s3, Begin(true)));
  }

  /** And when the response has ended, the request has been told once and the connection is free again. */
  lemma EndsIdle(s: Conn, c: nat)
    requires s.req == Some(c) && s.worker.Free? && c in s.calls
    ensures var k := s.calls[c];
            Run(s, ENDS) == Some(s.(busy := false, req := None, calls := s.calls[c := k.(ends := k.ends + 1)]))
  {
    hide Run;
    var s1 := s.(worker := Ending(c));
    var s2 := s.(req := None, worker := Freeing(c));
    var s3 := s2.(busy := false, worker := Telling(c));
    assert ENDS == [End] + ([Unbind] + ([ClearBusy] + ([Tell] + [])));
    Takes(s, End, [Unbind] + ([ClearBusy] + ([Tell] + [])));
    Takes(s1, Unbind, [ClearBusy] + ([Tell] + []));
    Takes(s2, ClearBusy, [Tell] + []);
    Takes(s3, Tell, []);
    Stays(Do(s3, Tell));
  }

  /** A free connection serves any number of requests one after the other, each told of its end once. */
  lemma {:induction false} ServesInTurn(s: Conn, cs: seq<nat>, here: nat -> bool)
    requires Idle(s) && (forall i :: 0 <= i < |cs| ==> cs[i] !in s.calls)
    requires forall i, j :: 0 <= i < j < |cs| ==> cs[i] != cs[j]
    ensures var r := Run(s, Turns(cs, here));
            && r.Some? && Idle(r.value)
            && (forall i :: 0 <= i < |cs| ==> cs[i] in r.value.calls && r.value.calls[cs[i]] == Call(Yes, 0, 1))
            && (forall d :: d in s.calls ==> d in r.value.calls && r.value.calls[d] == s.calls[d])
            && (forall d :: d in r.value.calls ==> d in s.calls || d in cs)
    decreases |cs|
  {
    hide Run, Asks;
    if cs == [] {
      Stays(s);
    } else {
      var c := cs[0];
      var s1 := s.(busy := true, req := Some(c), calls := s.calls[c := Call(Yes, 0, 0)]);
      var s2 := s.(calls := s.calls[c := Call(Yes, 0, 1)]);
      IdleTakes(s, c, here(c));
      EndsIdle(s1, c);
      assert s1.calls[c := Call(Yes, 0, 1)] == s2.calls;
      RunSplits(s, Asks(c, here(c)), ENDS);
      RunSplits(s, Asks(c, here(c)) + ENDS, Turns(cs[1..], here));
      ServesInTurn(s2, cs[1..], here);
      var r := Run(s, Turns(cs, here)).value;
      forall i | 0 <= i < |cs| ensures cs[i] in r.calls && r.calls[cs[i]] == Call(Yes, 0, 1) {
        assert i > 0 ==> cs[1..][i - 1] == cs[i];
      }
    }
  }

  function Turns(cs: seq<nat>, here: nat -> bool): seq<Step> {
    if cs == [] then [] else Asks(cs[0], here(cs[0])) + ENDS + Turns(cs[1..], here)
  }
}
