/** What a run of a request's regions adds up to: each thing the lock protects, read off the steps that
    were taken, and who a wait is answered by. */
module HttpHistory {
  import opened Bytes
  import opened HttpRace

  /** The last step that speaks decides: `down` to false, else `up` to true. */
  function Latest(run: seq<Action>, up: Action -> bool, down: Action -> bool, first: bool): bool {
    if run == [] then first
    else
      var a := run[|run| - 1];
      if down(a) then false else if up(a) then true else Latest(run[..|run| - 1], up, down, first)
  }

  lemma Snoc(run: seq<Action>) returns (front: seq<Action>, a: Action)
    requires run != []
    ensures run == front + [a] && front == run[..|run| - 1] && a == run[|run| - 1]
  {
    front, a := run[..|run| - 1], run[|run| - 1];
  }

  // ----- Connections

  predicate TakesConn(a: Action) { a.SockToConn? || a.TakePooled? }

  predicate TakesH3(a: Action) { a.StartH3? }

  predicate LetsGo(a: Action) { a.Recycle? }

  /** A request is on a connection from when it takes one, its own or a pooled one, until it is recycled. */
  lemma {:induction false} ConnExactly(x: Exchange, run: seq<Action>)
    ensures Run(x, run).held.conn == Latest(run, TakesConn, LetsGo, x.held.conn)
    decreases |run|
  {
    hide Run, Live;
    if run == [] {
      NoSteps(x);
    } else {
      var front, a := Snoc(run);
      ConnExactly(x, front);
      RunAfter(x, front, a);
    }
  }

  /** And on an HTTP/3 connection from when it is started there. */
  lemma {:induction false} H3ConnExactly(x: Exchange, run: seq<Action>)
    ensures Run(x, run).held.h3conn == Latest(run, TakesH3, LetsGo, x.held.h3conn)
    decreases |run|
  {
    hide Run, Live;
    if run == [] {
      NoSteps(x);
    } else {
      var front, a := Snoc(run);
      H3ConnExactly(x, front);
      RunAfter(x, front, a);
    }
  }

  lemma NoSteps(x: Exchange)
    ensures Run(x, []) == x
  {
  }

  // ----- Races

  predicate StartsRace(a: Action) { a.StartHop? && a.race }

  predicate StopsRace(a: Action) { (a.StartHop? && !a.race) || a.NoRace? }

  /** A hop races if it was started so and was not called off. */
  lemma {:induction false} RacingExactly(x: Exchange, run: seq<Action>)
    ensures Run(x, run).race.racing == Latest(run, StartsRace, StopsRace, x.race.racing)
    decreases |run|
  {
    hide Run, Live;
    if run == [] {
      NoSteps(x);
    } else {
      var front, a := Snoc(run);
      RacingExactly(x, front);
      RunAfter(x, front, a);
    }
  }

  // ----- Dials on their way

  predicate SockIsComing(a: Action) { a.SockComing? }

  predicate QuicIsComing(a: Action) { a.OwnDial? }

  /** Steps that settle the TCP half whatever else is the case, and those that may. */
  predicate SettlesSock(a: Action) {
    || a.StartHop? || a.SockNotComing? || a.PublishSock? || a.SockToConn? || a.TakePooled? || a.Finish?
    || (a.Fails? && !a.quic && a.token == 0)
  }

  predicate MaySettleSock(a: Action) { SettlesSock(a) || (a.Fails? && !a.quic) || (a.Claim? && a.quic) }

  predicate SettlesQuic(a: Action) {
    || a.StartHop? || a.QuicNotComing? || a.PublishQuic? || a.QuicToConn? || a.Finish?
    || (a.Fails? && a.quic && a.token == 0)
  }

  predicate MaySettleQuic(a: Action) { SettlesQuic(a) || (a.Fails? && a.quic) || (a.Claim? && !a.quic) }

  /** A TCP dial is on its way only if one was announced and nothing has settled it since, and then
      certainly unless QUIC has claimed the request or the dial failed. */
  lemma {:induction false} SockComingExactly(x: Exchange, run: seq<Action>)
    ensures Run(x, run).sock.pending ==> Latest(run, SockIsComing, SettlesSock, x.sock.pending)
    ensures Latest(run, SockIsComing, MaySettleSock, x.sock.pending) ==> Run(x, run).sock.pending
    decreases |run|
  {
    hide Run, Live;
    if run == [] {
      NoSteps(x);
    } else {
      var front, a := Snoc(run);
      SockComingExactly(x, front);
      RunAfter(x, front, a);
    }
  }

  /** And so for QUIC. */
  lemma {:induction false} QuicComingExactly(x: Exchange, run: seq<Action>)
    ensures Run(x, run).quic.pending ==> Latest(run, QuicIsComing, SettlesQuic, x.quic.pending)
    ensures Latest(run, QuicIsComing, MaySettleQuic, x.quic.pending) ==> Run(x, run).quic.pending
    decreases |run|
  {
    hide Run, Live;
    if run == [] {
      NoSteps(x);
    } else {
      var front, a := Snoc(run);
      QuicComingExactly(x, front);
      RunAfter(x, front, a);
    }
  }

  // ----- Waits

  predicate BeginsWait(a: Action) { a.Park? }

  /** Steps that end a wait whatever it is for, and those that may. */
  predicate EndsWait(a: Action) {
    a.StartHop? || a.OwnDial? || a.Finish? || (a.Fails? && a.quic && a.token == 0)
  }

  predicate MayEndWait(a: Action) {
    EndsWait(a) || a.Claim? || (a.Fails? && a.quic) || a.Unpark? || a.Cancel?
  }

  /** A request waits only if it has begun to and nothing has ended that since, a new hop least of all;
      and then certainly unless somebody has answered or the request was cancelled. */
  lemma {:induction false} WaitingExactly(x: Exchange, run: seq<Action>)
    ensures Run(x, run).park != 0 ==> Latest(run, BeginsWait, EndsWait, x.park != 0)
    ensures Latest(run, BeginsWait, MayEndWait, x.park != 0) ==> Run(x, run).park != 0
    decreases |run|
  {
    hide Run, Live;
    if run == [] {
      NoSteps(x);
    } else {
      var front, a := Snoc(run);
      WaitingExactly(x, front);
      RunAfter(x, front, a);
    }
  }

  predicate NoPark(run: seq<Action>) { forall i :: 0 <= i < |run| ==> !run[i].Park? }

  /** Without a new wait, the one in progress is the one there was, or over. */
  lemma {:induction false} SameWait(x: Exchange, run: seq<Action>)
    requires NoPark(run)
    ensures Run(x, run).park == x.park || Run(x, run).park == 0
    decreases |run|
  {
    hide Do;
    if run != [] {
      SameWaitStep(x, run[0]);
      SameWait(Do(x, run[0]).0, run[1..]);
    }
  }

  lemma SameWaitStep(x: Exchange, a: Action)
    requires !a.Park?
    ensures Do(x, a).0.park == x.park || Do(x, a).0.park == 0
  {
    hide Live;
  }

  /** An answer to the wait that `token` names. */
  predicate Answers(a: Action, token: nat) {
    (a.Claim? && a.token == token) || (a.Unpark? && a.token == token)
  }

  /** A cancel while TCP is on its way, and before any connection, ends the wait for good: nobody can start
      or restart the request through it. Any other cancel leaves the wait as it was. */
  lemma CancelEndsWaitExactly(x: Exchange, run: seq<Action>, a: Action)
    requires x.held.bound && x.park != 0 && NoPark(run) && Answers(a, x.park)
    ensures var y := Do(x, Cancel).0;
            if x.sock.Live() && !x.held.conn && !x.held.h3conn then !Do(Run(y, run), a).1.yes
            else y.park == x.park && (!x.race.racing ==> Do(y, a).1.yes)
  {
    hide Run, Live;
    var y := Do(x, Cancel).0;
    SameWait(y, run);
  }

  /** No step starts a race. */
  predicate NoRaceStarts(run: seq<Action>) { forall i :: 0 <= i < |run| ==> !StartsRace(run[i]) }

  /** While a hop does not race, a wait is answered at most once, by whoever comes first. */
  lemma {:induction false} AnsweredOnce(x: Exchange, run: seq<Action>, i: nat, j: nat, token: nat)
    requires token != 0 && !x.race.racing && NoRaceStarts(run) && NoPark(run) && i < j < |run|
    requires Answers(run[i], token) && At(x, run, i).yes && Answers(run[j], token)
    ensures !At(x, run, j).yes
    decreases i
  {
    hide Live;
    var y := Do(x, run[0]).0;
    NoRaceStep(x, run[0]);
    if i == 0 {
      StaysOver(y, run[1..], j - 1, token);
    } else {
      AnsweredOnce(y, run[1..], i - 1, j - 1, token);
    }
  }

  lemma NoRaceStep(x: Exchange, a: Action)
    requires !x.race.racing && !StartsRace(a)
    ensures !Do(x, a).0.race.racing
  {
    hide Live;
  }

  lemma {:induction false} StaysOver(x: Exchange, run: seq<Action>, j: nat, token: nat)
    requires token != 0 && x.park != token && NoPark(run) && j < |run| && Answers(run[j], token)
    ensures !At(x, run, j).yes
    decreases j
  {
    hide Do;
    if j == 0 {
      NotAnswered(x, run[0], token);
    } else {
      SameWaitStep(x, run[0]);
      StaysOver(Do(x, run[0]).0, run[1..], j - 1, token);
    }
  }

  lemma NotAnswered(x: Exchange, a: Action, token: nat)
    requires token != 0 && x.park != token && Answers(a, token)
    ensures !Do(x, a).1.yes
  {
  }

  /** A request that races is never restarted because somebody else's dial failed: its own TCP half is
      still to be heard from. */
  lemma {:induction false} RacingIsNotRestarted(x: Exchange, run: seq<Action>, i: nat)
    requires x.race.racing && OneHop(run) && i < |run| && run[i].Unpark?
    ensures !At(x, run, i).yes
    decreases i
  {
    hide Live;
    if i > 0 {
      RaceStep(x, run[0]);
      RacingIsNotRestarted(Do(x, run[0]).0, run[1..], i - 1);
    }
  }
}
