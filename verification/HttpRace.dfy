/** One request of the client while its transports race: every region under the request's lock is
    one indivisible step, and any thread may take any of them next. */
module HttpRace {
  import opened Bytes

  const U32: nat := 0x1_0000_0000

  datatype Error = NoError | Network | BadMessage | BadUrl | Aborted | OtherError

  /** One transport's dial: the socket, once there is one, and whether one is on its way. */
  datatype Half = Half(dial: Option<nat>, pending: bool) {
    predicate Live() { dial.Some? || pending }
  }

  const GONE := Half(None, false)

  /** How this hop was started, and who has won it. */
  datatype Race = Race(racing: bool, raced: bool, racedQuic: bool)

  /** Who has the request: a client that has it in flight, a connection it was written on. */
  datatype Holder = Holder(bound: bool, cancelled: bool, conn: bool, h3conn: bool)

  /** What the lock protects. A request waiting behind another's dial holds the token of that wait,
      zero being none. */
  datatype Exchange = Exchange(
    held: Holder,
    race: Race,
    sock: Half,
    quic: Half,
    park: nat,
    parkSeq: nat)

  const IDLE := Exchange(Holder(false, false, false, false), Race(false, false, false), GONE, GONE, 0, 0)

  /** Anything that may still bring the request a transport. */
  predicate Live(x: Exchange) { x.sock.Live() || x.quic.Live() || x.park != 0 }

  function NextPark(seq_: nat): nat {
    if (seq_ + 1) % U32 == 0 then 1 else (seq_ + 1) % U32
  }

  // ----- The regions

  datatype Action =
    | Send                            // the application starts the request
    | StartHop(race: bool)            // a hop begins, and forgets the race before it
    | NoRace                          // the QUIC half could not even be started
    | SockComing | SockNotComing      // the TCP half is being set up, or is not after all
    | Park                            // about to wait behind somebody's dial
    | OwnDial | QuicNotComing         // or to dial after all; or not
    | PublishSock(id: nat) | PublishQuic(id: nat)
    | Claim(quic: bool, token: nat, own: Option<nat>)
                                      // a transport is usable: `own` is the socket that goes if it lost
    | Fails(quic: bool, token: nat)   // a transport's dial has failed
    | SockToConn(id: nat) | QuicToConn(id: nat) | TakePooled | StartH3
    | QuicRefused(id: nat)            // QUIC came up, but not speaking HTTP/3: its socket is closed
    | Unpark(token: nat)              // the wait ended with nothing; try again
    | Recycle
    | Cancel
    | Finish(err: Error)              // the exchange ends
    | Callback                        // and the application hears of it

  /** What a region answers: its verdict, the TCP and QUIC sockets its caller must close, and the
      error with which it ends the exchange. */
  datatype Answer = Answer(yes: bool, closeSock: Option<nat>, closeQuic: Option<nat>, err: Error)

  function Says(yes: bool): Answer { Answer(yes, None, None, NoError) }

  function DoClaim(x: Exchange, quic: bool, token: nat): (Exchange, Answer) {
    if token != 0 && x.park != token then (x, Says(false))
    else if !x.race.racing then (x.(park := 0), Says(true))
    else if !x.race.raced then
      var y := x.(race := Race(true, true, quic), park := 0);
      if quic then (y.(sock := GONE), Answer(true, x.sock.dial, None, NoError))
      else (y.(quic := GONE), Answer(true, None, x.quic.dial, NoError))
    else (x, Says(x.race.racedQuic == quic))
  }

  function DoFails(x: Exchange, quic: bool, token: nat): (Exchange, Answer) {
    if token != 0 && x.park != token then (x, Says(false))
    else
      var y := if quic then x.(quic := GONE, park := 0) else x.(sock := GONE);
      (y, Answer(!y.race.raced && !Live(y), if quic then None else x.sock.dial,
                 if quic then x.quic.dial else None, NoError))
  }

  function DoUnpark(x: Exchange, token: nat): (Exchange, Answer) {
    if x.park == token && !x.race.racing then (x.(park := 0), Says(true)) else (x, Says(false))
  }

  function DoSend(x: Exchange): (Exchange, Answer) {
    if x.held.bound then (x, Says(false))
    else (x.(held := x.held.(bound := true, cancelled := false)), Says(true))
  }

  function DoCancel(x: Exchange): (Exchange, Answer) {
    if !x.held.bound then (x, Says(false))
    else
      var y := x.(held := x.held.(cancelled := true));
      (if !x.held.conn && !x.held.h3conn && x.sock.Live() then y.(park := 0) else y, Says(true))
  }

  function DoFinish(x: Exchange, err: Error): (Exchange, Answer) {
    var e := if x.held.cancelled && err != NoError then Aborted else err;
    (x.(held := x.held.(bound := false), sock := GONE, quic := GONE, park := 0),
     if x.held.bound then Answer(true, x.sock.dial, x.quic.dial, e) else Says(false))
  }

  /** The regions that only note how far a dial has got. */
  function DoNote(x: Exchange, a: Action): Exchange {
    match a
    case StartHop(race) =>
      x.(race := Race(race, false, false), sock := x.sock.(pending := false),
         quic := x.quic.(pending := false), park := 0)
    case NoRace => x.(race := x.race.(racing := false))
    case SockComing => x.(sock := x.sock.(pending := true))
    case SockNotComing => x.(sock := x.sock.(pending := false))
    case Park => var n := NextPark(x.parkSeq); x.(parkSeq := n, park := n)
    case OwnDial => x.(park := 0, quic := x.quic.(pending := true))
    case QuicNotComing => x.(quic := x.quic.(pending := false))
    case PublishSock(id) => x.(sock := Half(Some(id), false))
    case PublishQuic(id) => x.(quic := Half(Some(id), false))
    case SockToConn(_) => x.(sock := GONE, held := x.held.(conn := true))
    case QuicToConn(_) => x.(quic := GONE)
    case TakePooled => x.(sock := x.sock.(pending := false), held := x.held.(conn := true))
    case StartH3 => x.(held := x.held.(h3conn := true))
    case Recycle => x.(held := x.held.(conn := false, h3conn := false))
    case _ => x
  }

  function Do(x: Exchange, a: Action): (Exchange, Answer) {
    match a
    case Send => DoSend(x)
    case Claim(quic, token, _) => DoClaim(x, quic, token)
    case Fails(quic, token) => DoFails(x, quic, token)
    case Unpark(token) => DoUnpark(x, token)
    case Cancel => DoCancel(x)
    case Finish(err) => DoFinish(x, err)
    case _ => (DoNote(x, a), Says(true))
  }

  // ----- Runs

  /** The state after a run of regions. */
  function Run(x: Exchange, run: seq<Action>): Exchange
    decreases |run|
  {
    if run == [] then x else Run(Do(x, run[0]).0, run[1..])
  }

  /** The answer to the `i`-th region of a run. */
  function At(x: Exchange, run: seq<Action>, i: nat): Answer
    requires i < |run|
    decreases |run|
  {
    if i == 0 then Do(x, run[0]).1 else At(Do(x, run[0]).0, run[1..], i - 1)
  }

  // ----- One winner

  predicate Won(x: Exchange, run: seq<Action>, i: nat, quic: bool) {
    i < |run| && run[i].Claim? && run[i].quic == quic && At(x, run, i).yes
  }

  /** A claim by the transport itself, not on behalf of a wait. */
  predicate Claims(run: seq<Action>, i: nat, quic: bool) {
    i < |run| && run[i].Claim? && run[i].quic == quic && run[i].token == 0
  }

  /** No step starts another hop or calls the race off. */
  predicate OneHop(run: seq<Action>) {
    forall i :: 0 <= i < |run| ==> !run[i].StartHop? && !run[i].NoRace?
  }

  /** What one region can do to the race. */
  lemma RaceStep(x: Exchange, a: Action)
    requires x.race.racing && !a.StartHop? && !a.NoRace?
    ensures var (y, r) := Do(x, a);
            && y.race.racing
            && (x.race.raced ==> y.race.raced && y.race.racedQuic == x.race.racedQuic)
            && (a.Claim? && r.yes ==> y.race.raced && y.race.racedQuic == a.quic)
            && (a.Claim? && a.token == 0 && x.race.raced ==> (r.yes <==> a.quic == x.race.racedQuic))
  {
    hide Live;
    match a
    case Claim(_, _, _) =>
    case Fails(_, _) =>
    case _ =>
  }

  lemma {:induction false} DecidedStays(x: Exchange, run: seq<Action>, i: nat, quic: bool)
    requires x.race.racing && x.race.raced && OneHop(run)
    ensures Won(x, run, i, quic) ==> quic == x.race.racedQuic
    ensures Claims(run, i, x.race.racedQuic) ==> Won(x, run, i, x.race.racedQuic)
    decreases i
  {
    hide Do;
    if i < |run| {
      RaceStep(x, run[0]);
      if i > 0 {
        DecidedStays(Do(x, run[0]).0, run[1..], i - 1, quic);
      }
    }
  }

  /** However the threads interleave, the claims that succeed within a hop are all for one transport;
      a request is started only on a transport that has claimed it, so only ever on one. */
  lemma {:induction false} OneWinner(x: Exchange, run: seq<Action>, i: nat, j: nat, qi: bool, qj: bool)
    requires x.race.racing && OneHop(run) && i <= j
    requires Won(x, run, i, qi) && Won(x, run, j, qj)
    ensures qi == qj
    decreases i
  {
    hide Do;
    RaceStep(x, run[0]);
    var y := Do(x, run[0]).0;
    if i == 0 && j > 0 {
      DecidedStays(y, run[1..], j - 1, qj);
    } else if i > 0 {
      OneWinner(y, run[1..], i - 1, j - 1, qi, qj);
    }
  }

  /** And the winner can go on claiming: after its first success, each further claim of its own
      succeeds. */
  lemma {:induction false} WinnerKeepsWinning(x: Exchange, run: seq<Action>, i: nat, j: nat, quic: bool)
    requires x.race.racing && OneHop(run) && i < j < |run|
    requires Won(x, run, i, quic) && Claims(run, j, quic)
    ensures Won(x, run, j, quic)
    decreases i
  {
    hide Do;
    RaceStep(x, run[0]);
    var y := Do(x, run[0]).0;
    if i == 0 {
      DecidedStays(y, run[1..], j - 1, quic);
    } else {
      WinnerKeepsWinning(y, run[1..], i - 1, j - 1, quic);
    }
  }

  // ----- Every exchange ends once

  /** What the application has been told: sends accepted, ends whose callback has yet to run, and
      callbacks run. */
  datatype Calls = Calls(sends: nat, owed: seq<Error>, callbacks: seq<Error>)

  /** A callback runs only once one is owed. */
  predicate Enabled(c: Calls, a: Action) { a.Callback? ==> c.owed != [] }

  function Told(x: Exchange, c: Calls, a: Action): Calls
    requires Enabled(c, a)
  {
    var r := Do(x, a).1;
    match a
    case Send => if r.yes then c.(sends := c.sends + 1) else c
    case Finish(_) => if r.yes then c.(owed := c.owed + [r.err]) else c
    case Callback => Calls(c.sends, c.owed[1..], c.callbacks + [c.owed[0]])
    case _ => c
  }

  /** Accepted sends are the exchange in flight, the ends still to be told, and the ends told. */
  predicate Counted(x: Exchange, c: Calls) {
    c.sends == |c.callbacks| + |c.owed| + (if x.held.bound then 1 else 0)
  }

  function ToldAll(x: Exchange, c: Calls, run: seq<Action>): Option<Calls>
    decreases |run|
  {
    if run == [] then Some(c)
    else if !Enabled(c, run[0]) then None
    else ToldAll(Do(x, run[0]).0, Told(x, c, run[0]), run[1..])
  }

  lemma StepCounts(x: Exchange, c: Calls, a: Action)
    requires Counted(x, c) && Enabled(c, a)
    ensures Counted(Do(x, a).0, Told(x, c, a))
  {
    hide Live;
    match a
    case Fails(_, _) =>
    case Claim(_, _, _) =>
    case _ =>
  }

  /** Over every interleaving, an accepted send is answered by one terminal callback and no more:
      sends less callbacks is one while a client is bound and nothing is owed. */
  lemma {:induction false} EndsOnce(x: Exchange, c: Calls, run: seq<Action>)
    requires Counted(x, c)
    ensures var d := ToldAll(x, c, run);
            d.Some? ==> Counted(Run(x, run), d.value)
    decreases |run|
  {
    hide Do, Told, Counted;
    if run != [] && Enabled(c, run[0]) {
      StepCounts(x, c, run[0]);
      EndsOnce(Do(x, run[0]).0, Told(x, c, run[0]), run[1..]);
    }
  }

  // ----- And as what it ended

  /** What the application is told, read off the steps alone: a send is accepted when none is in flight,
      the next end answers it, and a cancel in between turns a failure, but not a success, into an abort. */
  function Verdicts(inFlight: bool, cancelled: bool, run: seq<Action>): seq<Error>
    decreases |run|
  {
    if run == [] then []
    else
      match run[0]
      case Send => Verdicts(true, inFlight && cancelled, run[1..])
      case Cancel => Verdicts(inFlight, inFlight || cancelled, run[1..])
      case Finish(e) =>
        (if !inFlight then [] else if cancelled && e != NoError then [Aborted] else [e])
        + Verdicts(false, cancelled, run[1..])
      case _ => Verdicts(inFlight, cancelled, run[1..])
  }

  /** Ends told and ends still to be told, in order. */
  function Ends(c: Calls): seq<Error> { c.callbacks + c.owed }

  lemma HolderStep(x: Exchange, a: Action)
    ensures var (y, r) := Do(x, a);
            match a
            case Send => r.yes == !x.held.bound && y.held.bound && y.held.cancelled == (x.held.bound && x.held.cancelled)
            case Cancel => r.yes == x.held.bound == y.held.bound && y.held.cancelled == (x.held.bound || x.held.cancelled)
            case Finish(e) =>
              && r.yes == x.held.bound && !y.held.bound && y.held.cancelled == x.held.cancelled
              && (r.yes ==> r.err == if x.held.cancelled && e != NoError then Aborted else e)
            case _ => y.held.bound == x.held.bound && y.held.cancelled == x.held.cancelled
  {
    hide Live, NextPark;
    match a
    case Fails(_, _) =>
    case Claim(_, _, _) =>
    case _ =>
  }

  lemma ToldStep(x: Exchange, c: Calls, a: Action)
    requires Enabled(c, a)
    ensures Ends(Told(x, c, a)) == Ends(c) + if a.Finish? && Do(x, a).1.yes then [Do(x, a).1.err] else []
  {
    hide Do;
    if a.Callback? {
      assert c.owed == [c.owed[0]] + c.owed[1..];
      assert c.callbacks + [c.owed[0]] + c.owed[1..] == c.callbacks + ([c.owed[0]] + c.owed[1..]);
    } else if a.Finish? && Do(x, a).1.yes {
      assert c.callbacks + (c.owed + [Do(x, a).1.err]) == c.callbacks + c.owed + [Do(x, a).1.err];
    } else {
      assert Ends(c) + [] == Ends(c);
    }
  }

  /** Over every interleaving the application is told exactly that. */
  lemma {:induction false} ToldExactly(x: Exchange, c: Calls, run: seq<Action>)
    ensures var d := ToldAll(x, c, run);
            d.Some? ==> Ends(d.value) == Ends(c) + Verdicts(x.held.bound, x.held.cancelled, run)
    decreases |run|
  {
    hide Do, Told, Ends;
    if run == [] {
      assert Ends(c) + [] == Ends(c);
    } else if Enabled(c, run[0]) {
      HolderStep(x, run[0]);
      ToldStep(x, c, run[0]);
      var y, e := Do(x, run[0]).0, Told(x, c, run[0]);
      ToldExactly(y, e, run[1..]);
      var here := if run[0].Finish? && Do(x, run[0]).1.yes then [Do(x, run[0]).1.err] else [];
      var later := Verdicts(y.held.bound, y.held.cancelled, run[1..]);
      assert Ends(c) + here + later == Ends(c) + (here + later);
      assert [] + later == later;
    }
  }

  /** One exchange: what its end reports is what ended it, unless a cancel came in between and it was not
      a success. */
  lemma {:induction false} EndsAs(x: Exchange, run: seq<Action>, k: nat)
    requires x.held.bound && k < |run| && run[k].Finish? && forall i :: 0 <= i < k ==> !run[i].Finish?
    ensures var e := run[k].err;
            var cut := x.held.cancelled || exists i :: 0 <= i < k && run[i].Cancel?;
            At(x, run, k).yes && At(x, run, k).err == if e != NoError && cut then Aborted else e
    decreases k
  {
    hide Do;
    HolderStep(x, run[0]);
    if k > 0 {
      var y, more := Do(x, run[0]).0, run[1..];
      EndsAs(y, more, k - 1);
      assert forall i :: 0 <= i < k - 1 ==> more[i] == run[i + 1];
      assert (exists i :: 0 <= i < k && run[i].Cancel?) <==> run[0].Cancel? || exists i :: 0 <= i < k - 1 && more[i].Cancel? by {
        if i :| 0 <= i < k && run[i].Cancel? {
          assert i > 0 ==> more[i - 1].Cancel?;
        }
      }
    }
  }

  // ----- A cancel that was accepted is honoured

  lemma CancelStep(x: Exchange, a: Action)
    requires x.held.bound && x.held.cancelled
    ensures var (y, r) := Do(x, a);
            if a.Finish? then !y.held.bound && r.yes && (r.err == NoError || r.err == Aborted)
            else y.held.bound && y.held.cancelled
  {
    hide Live;
    match a
    case Fails(_, _) =>
    case Claim(_, _, _) =>
    case _ =>
  }

  /** After a cancel that answered true, whatever else happens, the exchange ends as aborted or,
      having beaten the cancel, as a success: never as the failure the transport reported. */
  lemma {:induction false} CancelHonoured(x: Exchange, run: seq<Action>, k: nat)
    requires x.held.bound && x.held.cancelled && k < |run| && run[k].Finish?
    requires forall i :: 0 <= i < k ==> !run[i].Finish?
    ensures At(x, run, k).yes && (At(x, run, k).err == NoError || At(x, run, k).err == Aborted)
    decreases k
  {
    hide Do;
    CancelStep(x, run[0]);
    if k > 0 {
      CancelHonoured(Do(x, run[0]).0, run[1..], k - 1);
    }
  }

  // ----- What becomes of a socket

  /** How often one socket has been produced by a dial; closed; handed to a connection; let go of
      because another was published over it, or handed over in its stead, or nobody was bound; and
      closed or handed by a step that did not have it from the request, or left it there. */
  datatype Tally = Tally(published: nat, closed: nat, handed: nat, dropped: nat, astray: nat)

  const NONE := Tally(0, 0, 0, 0, 0)

  function Is(o: Option<nat>, id: nat): nat { if o == Some(id) then 1 else 0 }

  /** Whether the request holds the socket. */
  function Held(x: Exchange, id: nat): nat { Is(x.sock.dial, id) + Is(x.quic.dial, id) }

  /** The sockets closed once a region is done: by its own caller, by a cancel that finds no
      connection, by whoever claimed and lost, and by whoever finds that a peer does not speak
      HTTP/3. */
  function Closes(x: Exchange, a: Action, id: nat): nat {
    var r := Do(x, a).1;
    Is(r.closeSock, id) + Is(r.closeQuic, id) +
    match a
    case Cancel => if r.yes && !x.held.conn && !x.held.h3conn then Held(x, id) else 0
    case Claim(_, _, own) => if r.yes then 0 else Is(own, id)
    case QuicRefused(n) => Is(Some(n), id)
    case _ => 0
  }

  function Hands(a: Action, id: nat): nat {
    if a.SockToConn? || a.QuicToConn? then Is(Some(a.id), id) else 0
  }

  function Drops(x: Exchange, a: Action, id: nat): nat {
    match a
    case Finish(_) => if x.held.bound then 0 else Held(x, id)
    case PublishSock(_) => Is(x.sock.dial, id)
    case PublishQuic(_) => Is(x.quic.dial, id)
    case SockToConn(n) => if n == id then 0 else Is(x.sock.dial, id)
    case QuicToConn(n) => if n == id then 0 else Is(x.quic.dial, id)
    case _ => 0
  }

  /** What can be seen before a step to make it touch a socket that the request keeps, or that it no
      longer has: a cancel while it is being dialled, a claim made after the other transport has won,
      a peer without HTTP/3, and a hand-over of what was already taken away. */
  function Astray(x: Exchange, a: Action, id: nat): nat {
    match a
    case Cancel => if x.held.bound && !x.held.conn && !x.held.h3conn then Held(x, id) else 0
    case Claim(quic, token, own) =>
      if (token != 0 && x.park != token) || (x.race.racing && x.race.raced && x.race.racedQuic != quic)
      then Is(own, id) else 0
    case QuicRefused(n) => Is(Some(n), id)
    case SockToConn(n) => if n == id && x.sock.dial != Some(id) then 1 else 0
    case QuicToConn(n) => if n == id && x.quic.dial != Some(id) then 1 else 0
    case _ => 0
  }

  function Account(x: Exchange, t: Tally, a: Action, id: nat): Tally {
    Tally(t.published + (if a.PublishSock? || a.PublishQuic? then Is(Some(a.id), id) else 0),
          t.closed + Closes(x, a, id), t.handed + Hands(a, id),
          t.dropped + Drops(x, a, id), t.astray + Astray(x, a, id))
  }

  function AccountAll(x: Exchange, t: Tally, run: seq<Action>, id: nat): Tally
    decreases |run|
  {
    if run == [] then t else AccountAll(Do(x, run[0]).0, Account(x, t, run[0], id), run[1..], id)
  }

  predicate Accounted(x: Exchange, t: Tally, id: nat) {
    t.closed + t.handed + Held(x, id) + t.dropped == t.published + t.astray
  }

  lemma ClaimAccounts(x: Exchange, quic: bool, token: nat, own: Option<nat>, id: nat)
    ensures var a := Claim(quic, token, own);
            && Closes(x, a, id) + Held(Do(x, a).0, id) == Held(x, id) + Astray(x, a, id)
            && Hands(a, id) == 0 == Drops(x, a, id)
  {
    hide Live, DoFails, DoUnpark, DoSend, DoCancel, DoFinish, DoNote;
  }

  lemma EndAccounts(x: Exchange, a: Action, id: nat)
    requires a.Fails? || a.Finish? || a.Cancel? || a.Send? || a.Unpark?
    ensures Closes(x, a, id) + Held(Do(x, a).0, id) + Drops(x, a, id) == Held(x, id) + Astray(x, a, id)
    ensures Hands(a, id) == 0
  {
    hide Live, DoClaim, DoNote;
  }

  lemma NoteAccounts(x: Exchange, a: Action, id: nat)
    requires !a.Claim? && !a.Fails? && !a.Finish? && !a.Cancel? && !a.Send? && !a.Unpark?
    ensures var made := if a.PublishSock? || a.PublishQuic? then Is(Some(a.id), id) else 0;
            Closes(x, a, id) + Hands(a, id) + Held(Do(x, a).0, id) + Drops(x, a, id)
            == made + Held(x, id) + Astray(x, a, id)
  {
    hide Live, NextPark, DoClaim, DoFails, DoUnpark, DoSend, DoCancel, DoFinish;
  }

  lemma StepAccounts(x: Exchange, t: Tally, a: Action, id: nat)
    requires Accounted(x, t, id)
    ensures Accounted(Do(x, a).0, Account(x, t, a, id), id)
  {
    hide Do, Closes, Hands, Drops, Astray, Held;
    if a.Claim? {
      ClaimAccounts(x, a.quic, a.token, a.own, id);
    } else if a.Fails? || a.Finish? || a.Cancel? || a.Send? || a.Unpark? {
      EndAccounts(x, a, id);
    } else {
      NoteAccounts(x, a, id);
    }
  }

  /** Over every interleaving: a socket is closed or handed to a connection as often as dials have
      produced it, less what the request still holds or has let go of, and once more for every step
      that went astray. */
  lemma {:induction false} SocketsAccounted(x: Exchange, t: Tally, run: seq<Action>, id: nat)
    requires Accounted(x, t, id)
    ensures Accounted(Run(x, run), AccountAll(x, t, run, id), id)
    decreases |run|
  {
    hide Do, Account, Accounted;
    if run != [] {
      StepAccounts(x, t, run[0], id);
      SocketsAccounted(Do(x, run[0]).0, Account(x, t, run[0], id), run[1..], id);
    }
  }

  /** Whether any step of a run goes astray with the socket. */
  predicate Strays(x: Exchange, run: seq<Action>, id: nat)
    decreases |run|
  {
    run != [] && (Astray(x, run[0], id) > 0 || Strays(Do(x, run[0]).0, run[1..], id))
  }

  lemma {:induction false} StraysCounted(x: Exchange, t: Tally, run: seq<Action>, id: nat)
    ensures var u := AccountAll(x, t, run, id);
            u.astray >= t.astray && (u.astray > t.astray <==> Strays(x, run, id))
    decreases |run|
  {
    hide Do, Astray, Closes, Drops;
    if run != [] {
      StraysCounted(Do(x, run[0]).0, Account(x, t, run[0], id), run[1..], id);
    }
  }

  /** A socket that was produced once, and that the request has neither kept nor merely let go of, has
      been closed or handed to a connection; and exactly once if and only if no step went astray with
      it. */
  lemma UsedOnceExactly(x: Exchange, run: seq<Action>, id: nat)
    requires Held(x, id) == 0
    requires var t := AccountAll(x, NONE, run, id);
             t.published == 1 && t.dropped == 0 && Held(Run(x, run), id) == 0
    ensures var t := AccountAll(x, NONE, run, id);
            && t.closed + t.handed >= 1
            && (t.closed + t.handed == 1 <==> !Strays(x, run, id))
  {
    hide Do, Account, Strays;
    SocketsAccounted(x, NONE, run, id);
    StraysCounted(x, NONE, run, id);
  }

  lemma Next(x: Exchange, t: Tally, a: Action, rest: seq<Action>, id: nat)
    ensures AccountAll(x, t, [a] + rest, id) == AccountAll(Do(x, a).0, Account(x, t, a, id), rest, id)
  {
    hide Do, Account;
    assert ([a] + rest)[1..] == rest;
  }

  /** What three steps come to. */
  lemma Three(x: Exchange, a: Action, b: Action, c: Action, id: nat)
    ensures var y := Do(x, a).0;
            var z := Do(y, b).0;
            AccountAll(x, NONE, [a, b, c], id)
            == Account(z, Account(y, Account(x, NONE, a, id), b, id), c, id)
  {
    hide Do, Account;
    assert [a, b, c] == [a] + [b, c] && [b, c] == [b] + [c] && [c] == [c] + [];
    var y := Do(x, a).0;
    var t := Account(x, NONE, a, id);
    Next(x, NONE, a, [b, c], id);
    Next(y, t, b, [c], id);
    Next(Do(y, b).0, Account(y, t, b, id), c, [], id);
  }

  /** A cancel closes the socket being dialled and leaves it with the request, so the failure that
      follows closes it again; or a connection is given a socket that is closed. */
  lemma CancelClosesTwice(x: Exchange, id: nat)
    requires x.held.bound && !x.held.conn && !x.held.h3conn && x.quic == GONE
    ensures AccountAll(x, NONE, [PublishSock(id), Cancel, Fails(false, 0)], id).closed == 2
    ensures var t := AccountAll(x, NONE, [PublishSock(id), Cancel, SockToConn(id)], id);
            t.closed == 1 && t.handed == 1
  {
    hide Live, NextPark, Drops, Astray, AccountAll, DoClaim, DoUnpark, DoSend, DoFinish;
    Three(x, PublishSock(id), Cancel, Fails(false, 0), id);
    Three(x, PublishSock(id), Cancel, SockToConn(id), id);
  }

  /** A TCP socket that comes up after QUIC has won is closed by the winner and again by itself. */
  lemma LoserClosesTwice(x: Exchange, id: nat)
    requires x.race.racing && !x.race.raced && x.quic == GONE
    ensures AccountAll(x, NONE, [PublishSock(id), Claim(true, 0, None), Claim(false, 0, Some(id))], id).closed == 2
  {
    hide Live, NextPark, Drops, Astray, AccountAll, DoFails, DoUnpark, DoSend, DoFinish, DoCancel;
    Three(x, PublishSock(id), Claim(true, 0, None), Claim(false, 0, Some(id)), id);
  }

  /** And one whose peer turns out not to speak HTTP/3, by whoever finds out and again by the failure
      this is reported as. */
  lemma RefusedClosesTwice(x: Exchange, id: nat)
    requires x.sock == GONE
    ensures AccountAll(x, NONE, [PublishQuic(id), QuicRefused(id), Fails(true, 0)], id).closed == 2
  {
    hide Live, NextPark, Drops, Astray, AccountAll, DoClaim, DoUnpark, DoSend, DoFinish, DoCancel;
    Three(x, PublishQuic(id), QuicRefused(id), Fails(true, 0), id);
  }

  // ----- Nothing goes quiet

  /** Whether an HTTP/3 connection has come up for the request and the claim it is about to make is
      still to come: beginOnQuic has let go of the socket, and startOnH3 has not yet claimed. */
  predicate Lands(landed: bool, a: Action) {
    a.QuicToConn? || (landed && !a.Finish? && !(a.Claim? && a.quic && a.token == 0))
  }

  predicate Landed(landed: bool, run: seq<Action>)
    decreases |run|
  {
    if run == [] then landed else Landed(Lands(landed, run[0]), run[1..])
  }

  /** Anything that may still bring the request a transport, the connection that is already up among
      it. */
  predicate Coming(x: Exchange, landed: bool) { Live(x) || landed }

  /** The steps a racing hop is left to once both its halves have been started: outcomes of the dials
      and a cancel; and, for whoever has won, the rest of what it does. */
  predicate HopStep(x: Exchange, a: Action) {
    || a.PublishSock? || a.PublishQuic? || a.QuicToConn? || a.QuicRefused? || a.Claim? || a.Fails?
    || a.Cancel? || a.Callback?
    || (x.race.raced && (a.SockToConn? || a.TakePooled? || a.StartH3? || a.Recycle? || a.SockNotComing?))
  }

  predicate InHop(x: Exchange, run: seq<Action>)
    decreases |run|
  {
    run == [] || (HopStep(x, run[0]) && InHop(Do(x, run[0]).0, run[1..]))
  }

  lemma QuietStep(x: Exchange, landed: bool, a: Action)
    requires HopStep(x, a) && Coming(x, landed) && !x.race.raced && x.race.racing
    ensures var (y, r) := Do(x, a);
            y.race.racing && (Coming(y, Lands(landed, a)) || y.race.raced || (a.Fails? && r.yes))
  {
  }

  /** A hop with something still coming never loses the last of it without somebody being told: if
      it ends with nothing coming and no winner, one of the failures answered that it was the last.
      A cancel, in particular, gives up a wait only while there is a TCP dial to report it. */
  lemma {:induction false} NothingGoesQuiet(x: Exchange, landed: bool, run: seq<Action>) returns (k: nat)
    requires Coming(x, landed) && x.race.racing && !x.race.raced && InHop(x, run)
    requires !Coming(Run(x, run), Landed(landed, run)) && !Run(x, run).race.raced
    ensures k < |run| && run[k].Fails? && At(x, run, k).yes
    decreases |run|
  {
    hide Do, Coming, Lands;
    var a := run[0];
    QuietStep(x, landed, a);
    var y := Do(x, a).0;
    if a.Fails? && Do(x, a).1.yes {
      return 0;
    }
    if y.race.raced {
      RacedStays(y, run[1..]);
    }
    k := NothingGoesQuiet(y, Lands(landed, a), run[1..]);
    k := k + 1;
  }

  lemma {:induction false} RacedStays(x: Exchange, run: seq<Action>)
    requires x.race.racing && x.race.raced && InHop(x, run)
    ensures Run(x, run).race.raced
    decreases |run|
  {
    hide Do;
    if run != [] {
      RaceStep(x, run[0]);
      RacedStays(Do(x, run[0]).0, run[1..]);
    }
  }

  /** But once a claim has won the hop nobody is told any more, whatever becomes of the winner: a
      failure never again answers that it was the last. */
  lemma {:induction false} SilentOnceWon(x: Exchange, run: seq<Action>, k: nat)
    requires x.race.racing && x.race.raced && OneHop(run) && k < |run| && run[k].Fails?
    ensures !At(x, run, k).yes
    decreases k
  {
    hide Do;
    RaceStep(x, run[0]);
    if k == 0 {
      RacedFails(x, run[0]);
    } else {
      SilentOnceWon(Do(x, run[0]).0, run[1..], k - 1);
    }
  }

  lemma RacedFails(x: Exchange, a: Action)
    requires x.race.raced && a.Fails?
    ensures !Do(x, a).1.yes
  {
  }

  /** So a request that claimed for a connection out of the pool, found it dead and dialled instead is
      left with nothing coming and nobody told when that dial fails. */
  lemma WinnerGoesQuiet(x: Exchange, id: nat)
    requires x.race.racing && !x.race.raced && x.park == 0
    ensures var run := [Claim(false, 0, None), TakePooled, Recycle, PublishSock(id), Fails(false, 0)];
            && InHop(x, run) && !Coming(Run(x, run), Landed(false, run))
            && forall k :: 0 <= k < |run| && run[k].Fails? ==> !At(x, run, k).yes
  {
    hide Live, At, NextPark, DoUnpark, DoSend, DoFinish, DoCancel;
    var run := [Claim(false, 0, None), TakePooled, Recycle, PublishSock(id), Fails(false, 0)];
    var y := Do(x, run[0]).0;
    assert y.race.racing && y.race.raced && y.quic == GONE && y.park == 0;
    WonDialFails(y, id);
    assert run[1..] == [TakePooled, Recycle, PublishSock(id), Fails(false, 0)];
    forall k | 0 <= k < |run| && run[k].Fails?
      ensures !At(x, run, k).yes
    {
      assert At(x, run, k) == At(y, run[1..], k - 1) by {
        LaterAnswer(x, run, k);
      }
      SilentOnceWon(y, run[1..], k - 1);
    }
  }

  lemma LaterAnswer(x: Exchange, run: seq<Action>, k: nat)
    requires 0 < k < |run|
    ensures At(x, run, k) == At(Do(x, run[0]).0, run[1..], k - 1)
  {
  }

  lemma Unfold(x: Exchange, landed: bool, a: Action, rest: seq<Action>)
    ensures var y, run := Do(x, a).0, [a] + rest;
            && Run(x, run) == Run(y, rest)
            && (InHop(x, run) <==> HopStep(x, a) && InHop(y, rest))
            && Landed(landed, run) == Landed(Lands(landed, a), rest)
  {
    hide Do, HopStep, Lands;
    assert ([a] + rest)[1..] == rest;
  }

  lemma WonDialFails(x: Exchange, id: nat)
    requires x.race.raced && x.quic == GONE && x.park == 0
    ensures var run := [TakePooled, Recycle, PublishSock(id), Fails(false, 0)];
            InHop(x, run) && !Live(Run(x, run)) && !Landed(false, run)
  {
    hide Run, InHop, Landed, NextPark, DoClaim, DoUnpark, DoSend, DoFinish, DoCancel;
    var r3 := [Fails(false, 0)] + [];
    var r2 := [PublishSock(id)] + r3;
    var r1 := [Recycle] + r2;
    assert [TakePooled, Recycle, PublishSock(id), Fails(false, 0)] == [TakePooled] + r1;
    var y1 := Do(x, TakePooled).0;
    var y2 := Do(y1, Recycle).0;
    var y3 := Do(y2, PublishSock(id)).0;
    var y4 := Do(y3, Fails(false, 0)).0;
    Unfold(x, false, TakePooled, r1);
    Unfold(y1, false, Recycle, r2);
    Unfold(y2, false, PublishSock(id), r3);
    Unfold(y3, false, Fails(false, 0), []);
    NoMore(y4);
  }

  lemma NoMore(x: Exchange)
    ensures Run(x, []) == x && InHop(x, []) && !Landed(false, [])
  {
  }

  // ----- The last is not always the last

  lemma {:induction false} LandedAfter(landed: bool, run: seq<Action>, a: Action)
    ensures Landed(landed, run + [a]) == Lands(Landed(landed, run), a)
    decreases |run|
  {
    hide Lands;
    if run == [] {
      assert run + [a] == [a] && [a][1..] == [];
    } else {
      assert (run + [a])[1..] == run[1..] + [a];
      LandedAfter(Lands(landed, run[0]), run[1..], a);
    }
  }

  lemma {:induction false} RunAfter(x: Exchange, run: seq<Action>, a: Action)
    ensures Run(x, run + [a]) == Do(Run(x, run), a).0
    ensures At(x, run + [a], |run|) == Do(Run(x, run), a).1
    decreases |run|
  {
    hide Do;
    if run == [] {
      assert run + [a] == [a] && [a][1..] == [];
    } else {
      assert (run + [a])[1..] == run[1..] + [a];
      RunAfter(Do(x, run[0]).0, run[1..], a);
    }
  }

  /** The hop's own QUIC dial has its socket before it lands. */
  predicate LandsLast(run: seq<Action>) {
    forall i, j :: 0 <= i < j < |run| && run[i].QuicToConn? ==> !run[j].PublishQuic?
  }

  predicate AnyClaim(run: seq<Action>) { exists i :: 0 <= i < |run| && run[i].Claim? && run[i].token == 0 }

  predicate AnyLanding(run: seq<Action>) { exists i :: 0 <= i < |run| && run[i].QuicToConn? }

  /** Where a hop that is not waiting behind anybody stands: won exactly if somebody claimed it, and,
      once its own QUIC dial has landed, without a QUIC half. */
  lemma {:induction false} HopSoFar(x: Exchange, run: seq<Action>)
    requires x.race.racing && !x.race.raced && x.park == 0 && InHop(x, run) && LandsLast(run)
    ensures var y := Run(x, run);
            && y.race.racing && y.park == 0
            && (y.race.raced <==> AnyClaim(run))
            && (AnyLanding(run) ==> !y.quic.Live())
            && (!AnyClaim(run) ==> (Landed(false, run) <==> AnyLanding(run)))
    decreases |run|
  {
    hide Do, InHop, Lands;
    if run != [] {
      var n := |run| - 1;
      var before, a := run[..n], run[n];
      assert run == before + [a];
      InHopBefore(x, before, a);
      HopSoFar(x, before);
      RunAfter(x, before, a);
      LandedAfter(false, before, a);
      assert AnyClaim(run) <==> AnyClaim(before) || (a.Claim? && a.token == 0) by {
        AnyAfter(before, a);
      }
      assert AnyLanding(run) <==> AnyLanding(before) || a.QuicToConn? by {
        AnyAfter(before, a);
      }
      assert AnyLanding(before) ==> !a.PublishQuic?;
      HopOne(Run(x, before), Landed(false, before), a);
    }
  }

  lemma AnyAfter(run: seq<Action>, a: Action)
    ensures AnyClaim(run + [a]) <==> AnyClaim(run) || (a.Claim? && a.token == 0)
    ensures AnyLanding(run + [a]) <==> AnyLanding(run) || a.QuicToConn?
  {
    var all := run + [a];
    assert all[|run|] == a && forall i :: 0 <= i < |run| ==> all[i] == run[i];
  }

  lemma {:induction false} InHopBefore(x: Exchange, run: seq<Action>, a: Action)
    requires InHop(x, run + [a])
    ensures InHop(x, run) && HopStep(Run(x, run), a)
    decreases |run|
  {
    hide Do, HopStep;
    if run == [] {
      assert run + [a] == [a];
    } else {
      assert (run + [a])[1..] == run[1..] + [a];
      InHopBefore(Do(x, run[0]).0, run[1..], a);
    }
  }

  lemma HopOne(x: Exchange, landed: bool, a: Action)
    requires x.race.racing && x.park == 0 && HopStep(x, a)
    ensures var y := Do(x, a).0;
            && y.race.racing && y.park == 0
            && (y.race.raced <==> x.race.raced || (a.Claim? && a.token == 0))
            && (!x.quic.Live() && !a.PublishQuic? ==> !y.quic.Live())
            && (a.QuicToConn? ==> !y.quic.Live())
            && (!(a.Claim? && a.token == 0) ==> (Lands(landed, a) <==> landed || a.QuicToConn?))
  {
    hide NextPark;
    match a
    case Claim(_, _, _) =>
    case Fails(_, _) =>
    case _ =>
  }

  /** Exactly when a TCP failure ends a request that has a transport coming: in a hop with a QUIC dial
      of its own, when that dial has landed and neither transport has claimed yet. */
  lemma EndsEarlyExactly(x: Exchange, run: seq<Action>)
    requires x.race.racing && !x.race.raced && x.park == 0 && InHop(x, run) && LandsLast(run)
    ensures var y, last := Run(x, run), Fails(false, 0);
            Do(y, last).1.yes && Coming(Do(y, last).0, Landed(false, run + [last]))
            <==> AnyLanding(run) && !AnyClaim(run)
  {
    hide Run, InHop, LandsLast, AnyLanding, AnyClaim, Landed;
    HopSoFar(x, run);
    LandedAfter(false, run, Fails(false, 0));
  }

  /** And in general: a failure that answers that it was the last leaves nothing coming, except the
      connection that is up and has not claimed. */
  lemma LastIsLast(x: Exchange, landed: bool, run: seq<Action>, a: Action)
    requires a.Fails? && At(x, run + [a], |run|).yes
    ensures Coming(Run(x, run + [a]), Landed(landed, run + [a])) <==> Landed(landed, run)
    ensures !Run(x, run).race.raced
  {
    hide Run, Landed;
    RunAfter(x, run, a);
    LandedAfter(landed, run, a);
  }

  /** The input on which it goes wrong: both halves live, QUIC lands, TCP fails before QUIC claims,
      and the request ends with a network error while its HTTP/3 connection is up. */
  lemma LandedIsOverlooked(x: Exchange, id: nat)
    requires x.held.bound && !x.held.cancelled && x.race.racing && !x.race.raced && x.park == 0
    requires x.sock.Live() && x.quic.dial == Some(id)
    ensures var run := [QuicToConn(id), Fails(false, 0), Finish(Network)];
            At(x, run, 1).yes && Landed(false, run[..2]) && At(x, run, 2).err == Network
  {
    hide NextPark;
    var run := [QuicToConn(id), Fails(false, 0), Finish(Network)];
    var y := Do(x, run[0]).0;
    var z := Do(y, run[1]).0;
    assert run[1..][1..] == [Finish(Network)];
    assert At(x, run, 1) == At(y, run[1..], 0);
    assert At(x, run, 2) == At(y, run[1..], 1) == At(z, run[1..][1..], 0);
    var two := run[..2];
    assert two == [QuicToConn(id)] + [Fails(false, 0)];
    LandedAfter(false, [QuicToConn(id)], Fails(false, 0));
    assert |[QuicToConn(id)][1..]| == 0;
  }

  // ----- Tokens

  /** The `n`-th token: zero is skipped when the 32-bit count comes round. */
  function Token(n: nat): nat
    requires n > 0
  {
    (n - 1) % (U32 - 1) + 1
  }

  lemma NextToken(n: nat)
    ensures NextPark(if n == 0 then 0 else Token(n)) == Token(n + 1)
  {
    if n > 0 {
      var m := U32 - 1;
      DivMod(n - 1, m);
      var q, r := (n - 1) / m, (n - 1) % m;
      if r + 1 == m {
        assert n == m * (q + 1) + 0;
        DivModUnique(n, m, q + 1, 0);
      } else {
        DivModUnique(n, m, q, r + 1);
      }
    }
  }

  lemma TokensDiffer(k: nat, n: nat)
    requires 0 < k < n && n - k < U32 - 1
    ensures Token(k) != Token(n)
  {
    var m := U32 - 1;
    DivMod(k - 1, m);
    DivMod(n - 1, m);
  }

  /** How many waits a run begins. */
  function Parks(run: seq<Action>): nat {
    if run == [] then 0 else (if run[0].Park? then 1 else 0) + Parks(run[1..])
  }

  /** After `n` waits: the count stands at the `n`-th token, which is also the wait in progress, if
      there is one. */
  predicate Waits(x: Exchange, n: nat) {
    x.parkSeq == (if n == 0 then 0 else Token(n)) && (x.park == 0 || x.park == x.parkSeq)
  }

  lemma WaitStep(x: Exchange, n: nat, a: Action)
    requires Waits(x, n)
    ensures var y := Do(x, a).0;
            if a.Park? then Waits(y, n + 1) && y.park == Token(n + 1)
            else Waits(y, n) && (y.park == x.park || y.park == 0)
  {
    hide Live, Token, NextPark;
    NextToken(n);
    match a
    case Claim(_, _, _) =>
    case Fails(_, _) =>
    case _ =>
  }

  lemma {:induction false} OverStaysOver(x: Exchange, n: nat, k: nat, run: seq<Action>)
    requires Waits(x, n) && 0 < k <= n && x.park != Token(k) && n + Parks(run) - k < U32 - 1
    ensures Run(x, run).park != Token(k)
    decreases |run|
  {
    hide Do, Token;
    assert Token(k) > 0 by {
      TokenPositive(k);
    }
    if run != [] {
      WaitStep(x, n, run[0]);
      if run[0].Park? {
        TokensDiffer(k, n + 1);
        OverStaysOver(Do(x, run[0]).0, n + 1, k, run[1..]);
      } else {
        OverStaysOver(Do(x, run[0]).0, n, k, run[1..]);
      }
    }
  }

  lemma TokenPositive(n: nat)
    requires n > 0
    ensures Token(n) > 0
  {
  }

  /** Once the `k`-th wait is over, whatever the request does next, an answer meant for that wait
      changes nothing: until the 32-bit count of waits has come all the way round. */
  lemma StaleTokenIgnored(x: Exchange, n: nat, k: nat, run: seq<Action>, quic: bool)
    requires Waits(x, n) && 0 < k <= n && x.park != Token(k) && n + Parks(run) - k < U32 - 1
    ensures var y := Run(x, run);
            && Do(y, Claim(quic, Token(k), None)) == (y, Says(false))
            && Do(y, Fails(quic, Token(k))) == (y, Says(false))
            && Do(y, Unpark(Token(k))) == (y, Says(false))
  {
    OverStaysOver(x, n, k, run);
    TokenPositive(k);
  }

  // ----- The regions as they run

  class Request {
    var client: bool
    var cancelled: bool
    var conn: bool
    var h3conn: bool
    var racing: bool
    var raced: bool
    var racedQuic: bool
    var dialSock: Option<nat>
    var dialSockPending: bool
    var dialQuic: Option<nat>
    var dialQuicPending: bool
    var quicPark: nat
    var quicParkSeq: nat

    ghost function View(): Exchange
      reads this
    {
      Exchange(Holder(client, cancelled, conn, h3conn), Race(racing, raced, racedQuic),
               Half(dialSock, dialSockPending), Half(dialQuic, dialQuicPending), quicPark, quicParkSeq)
    }

    constructor ()
      ensures View() == IDLE
    {
      client, cancelled, conn, h3conn, racing, raced, racedQuic := false, false, false, false, false, false, false;
      dialSock, dialSockPending, dialQuic, dialQuicPending := None, false, None, false;
      quicPark, quicParkSeq := 0, 0;
    }

    /** Claims the race for one transport; the loser's socket is the caller's to close. */
    method RaceClaim(quic: bool, park: nat) returns (won: bool, loser: Option<nat>, closedQuicDial: bool)
      modifies this
      ensures var (y, r) := Do(old(View()), Claim(quic, park, None));
              && View() == y && won == r.yes
              && loser == (if quic then r.closeSock else r.closeQuic)
              && closedQuicDial == r.closeQuic.Some?
    {
      hide Live, DoNote, DoFails, DoUnpark, DoSend, DoCancel, DoFinish;
      won, loser, closedQuicDial := false, None, false;
      if park != 0 && quicPark != park {
        won := false;
      } else if !racing {
        quicPark := 0;
        won := true;
      } else if !raced {
        raced, racedQuic, quicPark, won := true, quic, 0, true;
        if quic {
          loser, dialSock, dialSockPending := dialSock, None, false;
        } else {
          loser, dialQuic, dialQuicPending := dialQuic, None, false;
        }
      } else {
        won := racedQuic == quic;
      }
      closedQuicDial := loser.Some? && !quic;
    }

    /** One transport's dial has failed; true if there is nothing left to wait for. */
    method RaceFailed(quic: bool, park: nat) returns (last: bool, dead: Option<nat>)
      modifies this
      ensures var (y, r) := Do(old(View()), Fails(quic, park));
              View() == y && last == r.yes && dead == (if quic then r.closeQuic else r.closeSock)
    {
      hide DoNote, DoClaim, DoUnpark, DoSend, DoCancel, DoFinish;
      last, dead := false, None;
      if park == 0 || quicPark == park {
        if quic {
          dead, dialQuic, dialQuicPending, quicPark := dialQuic, None, false, 0;
        } else {
          dead, dialSock, dialSockPending := dialSock, None, false;
        }
        last := !raced && dialSock.None? && dialQuic.None? && !dialSockPending && !dialQuicPending
                && quicPark == 0;
      }
    }

    method UnparkToRestart(park: nat) returns (restart: bool)
      modifies this`quicPark
      ensures var (y, r) := Do(old(View()), Unpark(park));
              View() == y && restart == r.yes
    {
      restart := false;
      if quicPark == park && !racing {
        quicPark := 0;
        restart := true;
      }
    }

    /** Enters a wait, before asking for it. */
    method BeginPark() returns (park: nat)
      modifies this`quicPark, this`quicParkSeq
      ensures View() == Do(old(View()), Park).0 && park == quicPark != 0
    {
      quicParkSeq := (quicParkSeq + 1) % U32;
      if quicParkSeq == 0 {
        quicParkSeq := (quicParkSeq + 1) % U32;
      }
      park := quicParkSeq;
      quicPark := park;
    }

    method TryCancel() returns (claimed: bool, dialing: Option<nat>, dialing2: Option<nat>)
      modifies this`cancelled, this`quicPark
      ensures var (y, r) := Do(old(View()), Cancel);
              View() == y && claimed == r.yes
      ensures claimed && !conn && !h3conn ==> dialing == dialSock && dialing2 == dialQuic
      ensures !claimed || conn || h3conn ==> dialing == None && dialing2 == None
      ensures forall id :: Is(dialing, id) + Is(dialing2, id) == Closes(old(View()), Cancel, id)
    {
      claimed, dialing, dialing2 := false, None, None;
      if client {
        claimed, cancelled := true, true;
        if !conn && !h3conn {
          dialing, dialing2 := dialSock, dialQuic;
          if dialSock.Some? || dialSockPending {
            quicPark := 0;
          }
        }
      }
    }

    /** Unbinds the client; false if the exchange had already ended. */
    method FinishExchange(err: Error) returns (running: bool, reported: Error, dialing: Option<nat>, quicDial: Option<nat>)
      modifies this
      ensures var (y, r) := Do(old(View()), Finish(err));
              && View() == y && running == r.yes
              && (running ==> reported == r.err && dialing == r.closeSock && quicDial == r.closeQuic)
    {
      hide Live, NextPark, DoNote, DoClaim, DoFails, DoUnpark, DoSend, DoCancel;
      running, reported := client, err;
      if cancelled && err != NoError {
        reported := Aborted;
      }
      client := false;
      dialing, dialSock, quicDial, dialQuic := dialSock, None, dialQuic, None;
      dialSockPending, dialQuicPending, quicPark := false, false, 0;
    }
  }
}
