/** The mark that an origin is being dialled, and whoever has to take it off again. A step is one region,
    as it is for the waits, together with what the thread that took it is bound to do next. */
module HttpMark {
  import opened Bytes
  import opened HttpDial
  import HttpRace
  import HttpWait

  /** Who has to do with a dial: the origin each request is at, the origin its own dial was marked for,
      whose dial is still being set up, which marks some thread is about to take off, and which requests
      are about to be told that their dial has failed. */
  datatype Dials = Dials(url: map<nat, Key>, own: map<nat, Key>, setup: set<nat>, ending: multiset<Key>,
                         failing: multiset<nat>)

  datatype World = World(w: HttpWait.World, d: Dials)

  datatype Step =
    | Plain(a: HttpWait.Step)                            // anything that is not about a dial of one's own
    | Dial(w: Waiter)                                    // the mark is set, and the dial begins
    | Publish(r: nat, id: nat) | NotComing(r: nat)       // it has a socket, or could not even be started
    | Lands(r: nat, id: nat)                             // an HTTP/3 connection is up
    | Refused(r: nat, id: nat) | DialFails(r: nat)       // or not
    | TakesOff(key: Key)                                 // the mark is taken off
    | Told(r: nat)                                       // and the request hears of the failure
    | Move(r: nat, key: Key)                             // a redirect

  function UrlOf(d: Dials, r: nat): Key { if r in d.url then d.url[r] else [] }

  predicate Bound(s: World, r: nat) { r in s.w.reqs && s.w.reqs[r].held.bound }

  /** The regions that only the steps above take. */
  predicate AboutOwnDial(c: HttpRace.Action) {
    c.PublishQuic? || c.QuicToConn? || c.QuicRefused? || c.OwnDial? || c.Park? || (c.Fails? && c.quic && c.token == 0)
  }

  predicate CanPlain(s: World, b: HttpWait.Step) {
    && HttpWait.Can(s.w, b)
    && match b
       case Region(_, c) => !AboutOwnDial(c)
       case Begin(r, key) => key == UrlOf(s.d, r)
       case Dial(_) => false
       case Ends(_) => false
       case _ => true
  }

  predicate Can(s: World, a: Step) {
    match a
    case Plain(b) => CanPlain(s, b)
    case Dial(w) => w in s.w.granted && w.req in s.w.reqs
    case Publish(r, _) => r in s.d.setup && r in s.w.reqs
    case NotComing(r) => r in s.d.setup && r in s.w.reqs
    case Lands(r, _) => Bound(s, r)
    case Refused(r, _) => Bound(s, r)
    case DialFails(r) => Bound(s, r)
    case TakesOff(key) => key in s.d.ending
    case Told(r) => r in s.d.failing && r in s.w.reqs
    case Move(_, _) => true
  }

  // ----- What a step does

  /** What it is as a step of requests and waits, if it is one. */
  function Seen(a: Step): Option<HttpWait.Step> {
    match a
    case Plain(b) => Some(b)
    case Dial(w) => Some(HttpWait.Dial(w))
    case Publish(r, id) => Some(HttpWait.Region(r, HttpRace.PublishQuic(id)))
    case NotComing(r) => Some(HttpWait.Region(r, HttpRace.QuicNotComing))
    case Lands(r, id) => Some(HttpWait.Region(r, HttpRace.QuicToConn(id)))
    case Refused(r, id) => Some(HttpWait.Region(r, HttpRace.QuicRefused(id)))
    case DialFails(_) => None
    case TakesOff(key) => Some(HttpWait.Ends(key))
    case Told(r) => Some(HttpWait.Region(r, HttpRace.Fails(true, 0)))
    case Move(_, _) => None
  }

  /** A claim or an end of the exchange that closed the request's own dial: its caller retires it. */
  predicate Retires(s: World, a: Step) {
    && a.Plain? && a.a.Region? && (a.a.a.Claim? || a.a.a.Finish?) && a.a.req in s.w.reqs
    && HttpRace.Do(s.w.reqs[a.a.req], a.a.a).1.closeQuic.Some?
  }

  /** The request whose dial has come to its end, if a step is such an end. */
  function EndsDial(s: World, a: Step): Option<nat> {
    match a
    case NotComing(r) => Some(r)
    case Lands(r, _) => Some(r)
    case Refused(r, _) => Some(r)
    case DialFails(r) => Some(r)
    case _ => if Retires(s, a) then Some(a.a.req) else None
  }

  function Ending(s: World, a: Step): multiset<Key> {
    var r := EndsDial(s, a);
    if r.Some? then s.d.ending + multiset{UrlOf(s.d, r.value)}
    else if a.TakesOff? then s.d.ending - multiset{a.key} else s.d.ending
  }

  function Own(s: World, a: Step): map<nat, Key> {
    var r := EndsDial(s, a);
    if r.Some? then s.d.own - {r.value} else if a.Dial? then s.d.own[a.w.req := a.w.key] else s.d.own
  }

  function Setup(s: World, a: Step): set<nat> {
    if a.Dial? then s.d.setup + {a.w.req} else if a.Publish? || a.NotComing? then s.d.setup - {a.r} else s.d.setup
  }

  function Failing(s: World, a: Step): multiset<nat> {
    if a.NotComing? || a.Refused? || a.DialFails? then s.d.failing + multiset{a.r}
    else if a.Told? then s.d.failing - multiset{a.r} else s.d.failing
  }

  function Url(s: World, a: Step): map<nat, Key> { if a.Move? then s.d.url[a.r := a.key] else s.d.url }

  lemma SeenCan(s: World, a: Step)
    requires Can(s, a)
    ensures Seen(a).Some? ==> HttpWait.Can(s.w, Seen(a).value)
  {
  }

  function Do(s: World, a: Step): World
    requires Can(s, a)
  {
    SeenCan(s, a);
    World(if Seen(a).Some? then HttpWait.Do(s.w, Seen(a).value) else s.w,
          Dials(Url(s, a), Own(s, a), Setup(s, a), Ending(s, a), Failing(s, a)))
  }

  // ----- Who will take a mark off

  datatype Owner = Grant(w: Waiter) | OwnDial(r: nat) | AboutToEnd

  /** A thread that has been granted the dial; a request whose dial is being set up, or has its socket
      and somebody to hear of it; or a thread that is about to take the mark off. */
  predicate Holds(s: World, o: Owner, key: Key) {
    match o
    case Grant(w) => w in s.w.granted && w.key == key
    case OwnDial(r) =>
      && r in s.w.reqs && r in s.d.own && s.d.own[r] == key == UrlOf(s.d, r)
      && (r in s.d.setup || (s.w.reqs[r].held.bound && s.w.reqs[r].quic.dial.Some?))
    case AboutToEnd => key in s.d.ending
  }

  ghost predicate Owned(s: World, key: Key) { exists o :: Holds(s, o, key) }

  /** Whether a step makes an owner lose the dial without anybody being bound to take the mark off: a
      socket published to a request that has ended; a failure that closes a dial it is not about; another
      dial begun, or a redirect, while this one goes on. */
  predicate Loses(s: World, a: Step, o: Owner, key: Key) {
    match o
    case Grant(w) => a == Dial(w) && s.w.granted[w] == 1 && UrlOf(s.d, w.req) != key
    case AboutToEnd => false
    case OwnDial(r) =>
      match a
      case Publish(q, _) => q == r && !Bound(s, r)
      case Told(q) => q == r && r !in s.d.setup
      case Move(q, k) => q == r && k != key
      case Dial(w) => w.req == r && w.key != key
      case Plain(Down(w)) => w.req == r && r !in s.d.setup && Hears(s, r, w.park)
      case Plain(Region(q, c)) => q == r && r !in s.d.setup && c.Fails? && c.quic && Hears(s, r, c.token)
      case _ => false
  }

  /** Whether a failure with this token reaches the request. */
  predicate Hears(s: World, r: nat, token: nat) { r in s.w.reqs && (token == 0 || s.w.reqs[r].park == token) }

  /** Whether a step binds its thread to take this mark off. */
  predicate Tells(s: World, a: Step, key: Key) {
    EndsDial(s, a).Some? && UrlOf(s.d, EndsDial(s, a).value) == key
  }

  // ----- The parts of a step

  /** What a step does to which request. */
  function Acts(s: World, a: Step): Option<(nat, HttpRace.Action)> {
    match a
    case Plain(Region(q, c)) => Some((q, c))
    case Plain(Begin(q, _)) => Some((q, HttpRace.Park))
    case Plain(Up(w)) => if Bound(s, w.req) then Some((w.req, HttpRace.Claim(true, w.park, None))) else None
    case Plain(Restart(w)) => Some((w.req, HttpRace.Unpark(w.park)))
    case Plain(Down(w)) => Some((w.req, HttpRace.Fails(true, w.park)))
    case Plain(_) => None
    case Dial(w) => Some((w.req, HttpRace.OwnDial))
    case Publish(r, id) => Some((r, HttpRace.PublishQuic(id)))
    case NotComing(r) => Some((r, HttpRace.QuicNotComing))
    case Lands(r, id) => Some((r, HttpRace.QuicToConn(id)))
    case Refused(r, id) => Some((r, HttpRace.QuicRefused(id)))
    case DialFails(_) => None
    case TakesOff(_) => None
    case Told(r) => Some((r, HttpRace.Fails(true, 0)))
    case Move(_, _) => None
  }

  function After(reqs: map<nat, HttpRace.Exchange>, act: Option<(nat, HttpRace.Action)>): map<nat, HttpRace.Exchange> {
    if act.Some? && act.value.0 in reqs
    then reqs[act.value.0 := HttpRace.Do(reqs[act.value.0], act.value.1).0] else reqs
  }

  lemma AnswerRequests(s: HttpWait.World, w: Waiter)
    requires w.req in s.reqs
    ensures HttpWait.OnUp(s, w).reqs
            == After(s.reqs, if !s.reqs[w.req].held.bound then None
                             else Some((w.req, HttpRace.Claim(true, w.park, None))))
    ensures HttpWait.OnRestart(s, w).reqs == After(s.reqs, Some((w.req, HttpRace.Unpark(w.park))))
  {
    hide HttpRace.Do, HttpWait.TooLate, HttpWait.WonBefore;
  }

  lemma PlainRequests(s: World, b: HttpWait.Step)
    requires CanPlain(s, b)
    ensures HttpWait.Do(s.w, b).reqs == After(s.w.reqs, Acts(s, Plain(b)))
    ensures var act := Acts(s, Plain(b)); act.Some? ==> act.value.0 in s.w.reqs
  {
    hide HttpRace.Do, HttpDial.Claim, HttpDial.Done, HttpWait.OnUp, HttpWait.OnRestart;
    if b.Up? || b.Restart? {
      AnswerRequests(s.w, b.w);
    }
  }

  lemma OtherRequests(s: World, a: Step)
    requires Can(s, a) && !a.Plain?
    ensures Do(s, a).w.reqs == After(s.w.reqs, Acts(s, a))
    ensures Acts(s, a).Some? ==> Acts(s, a).value.0 in s.w.reqs
  {
    hide HttpRace.Do, HttpDial.Claim, HttpDial.Done;
    hide HttpWait.OnUp, HttpWait.OnRestart, HttpWait.OnAsk, HttpWait.OnBegin;
    hide Own, Setup, Ending, Failing, Url;
    SeenCan(s, a);
  }

  lemma RequestsAfter(s: World, a: Step)
    requires Can(s, a)
    ensures Do(s, a).w.reqs == After(s.w.reqs, Acts(s, a))
    ensures Acts(s, a).Some? ==> Acts(s, a).value.0 in s.w.reqs
  {
    hide HttpRace.Do, HttpWait.Do, Acts, After, Own, Setup, Ending, Failing, Url;
    if a.Plain? {
      PlainRequests(s, a.a);
    } else {
      OtherRequests(s, a);
    }
  }

  lemma GrantedAfter(s: World, a: Step, w: Waiter)
    requires Can(s, a)
    ensures var t := Do(s, a);
            && (w in t.w.granted ==> w in s.w.granted || (a == Plain(HttpWait.Ask(w)) && w.key !in s.w.table.dialing))
            && (w in s.w.granted ==> w in t.w.granted || (a == Dial(w) && s.w.granted[w] == 1))
            && (a == Dial(w) && s.w.granted[w] == 1 ==> w !in t.w.granted)
            && (a == Plain(HttpWait.Ask(w)) && w.key !in s.w.table.dialing ==> w in t.w.granted)
  {
    hide HttpRace.Do, HttpDial.Done, HttpWait.TooLate, HttpWait.WonBefore, Own, Setup, Ending, Failing, Url;
    SeenCan(s, a);
  }

  lemma MarksAfter(s: World, a: Step, key: Key)
    requires Can(s, a)
    ensures var t := Do(s, a);
            key in t.w.table.dialing <==>
              if a == TakesOff(key) then false
              else key in s.w.table.dialing || (a.Plain? && a.a.Ask? && a.a.w.key == key)
  {
    hide HttpRace.Do, HttpWait.TooLate, HttpWait.WonBefore, Own, Setup, Ending, Failing, Url;
    hide Without, NotOfKey, OfKey, Reverse;
    SeenCan(s, a);
    if a.TakesOff? {
      WithoutKey(s.w.table.dialing, a.key, key);
    }
  }

  /** What one region does to a request's dial. */
  lemma DialStep(x: HttpRace.Exchange, c: HttpRace.Action)
    ensures var (y, r) := HttpRace.Do(x, c);
            && (y.quic.dial.Some? ==> x.quic.dial.Some? || c.PublishQuic?)
            && (c.PublishQuic? ==> y.quic.dial.Some?)
            && (y.held.bound ==> x.held.bound || c.Send?)
            && (x.held.bound ==> y.held.bound || c.Finish?)
            && (x.quic.dial.Some? && y.quic.dial.None? ==>
                  || c.QuicToConn? || (c.Fails? && c.quic && (c.token == 0 || x.park == c.token))
                  || (c.Claim? && !c.quic && r.closeQuic.Some?) || c.Finish?)
            && (c.Finish? && x.held.bound && x.quic.dial.Some? ==> r.closeQuic.Some?)
            && (c.Fails? && c.quic && (c.token == 0 || x.park == c.token) ==> y.quic.dial.None?)
  {
    hide HttpRace.Live, HttpRace.NextPark;
    match c
    case Claim(_, _, _) =>
    case Fails(_, _) =>
    case _ =>
  }

  // ----- A mark keeps an owner, or is lost

  lemma GrantKept(s: World, a: Step, w: Waiter, key: Key)
    requires Can(s, a) && Holds(s, Grant(w), key) && !Loses(s, a, Grant(w), key)
    ensures Owned(Do(s, a), key)
  {
    hide Do, HttpRace.Do;
    GrantedAfter(s, a, w);
    RequestsAfter(s, a);
    var t := Do(s, a);
    if w in t.w.granted {
      assert Holds(t, Grant(w), key);
    } else {
      DialsAfter(s, a);
      assert Holds(t, OwnDial(w.req), key);
    }
  }

  lemma DialsAfter(s: World, a: Step)
    requires Can(s, a)
    ensures Do(s, a).d == Dials(Url(s, a), Own(s, a), Setup(s, a), Ending(s, a), Failing(s, a))
  {
    hide HttpWait.Do;
  }

  lemma OwnKept(s: World, a: Step, r: nat, key: Key)
    requires Can(s, a) && Holds(s, OwnDial(r), key) && !Loses(s, a, OwnDial(r), key) && !Tells(s, a, key)
    ensures var d := Do(s, a).d; r in d.own && d.own[r] == key == UrlOf(d, r)
  {
    hide Do, Retires, CanPlain;
    DialsAfter(s, a);
  }

  lemma TransportKept(s: World, a: Step, r: nat, key: Key)
    requires Can(s, a) && Holds(s, OwnDial(r), key) && !Loses(s, a, OwnDial(r), key) && !Tells(s, a, key)
    ensures var t := Do(s, a);
            r in t.w.reqs && (r in t.d.setup || (t.w.reqs[r].held.bound && t.w.reqs[r].quic.dial.Some?))
  {
    hide Do, HttpRace.Do, Own, Ending, Failing, Url;
    RequestsAfter(s, a);
    DialsAfter(s, a);
    var act := Acts(s, a);
    if act.Some? && act.value.0 == r {
      DialStep(s.w.reqs[r], act.value.1);
    }
  }

  lemma DialKept(s: World, a: Step, r: nat, key: Key)
    requires Can(s, a) && Holds(s, OwnDial(r), key) && !Loses(s, a, OwnDial(r), key) && !Tells(s, a, key)
    ensures Holds(Do(s, a), OwnDial(r), key)
  {
    hide Do, Can, Loses, Tells;
    OwnKept(s, a, r, key);
    TransportKept(s, a, r, key);
  }

  lemma EndKept(s: World, a: Step, key: Key)
    requires Can(s, a) && a != TakesOff(key)
    ensures key in Do(s, a).d.ending <==> key in s.d.ending || Tells(s, a, key)
  {
    hide Do, EndsDial;
    DialsAfter(s, a);
  }

  /** Who held the dial before a step, for who holds it afterwards. */
  function Was(a: Step, o: Owner, key: Key): Owner {
    if o.OwnDial? && a.Dial? && a.w.req == o.r && a.w.key == key then Grant(a.w) else o
  }

  /** Steps that may give a request its dial back, and take it from nobody. */
  predicate Regains(a: Step, key: Key) {
    || (a.Move? && a.key == key)
    || (a.Plain? && a.a.Region? && a.a.a.Send?)
  }

  lemma HeldBefore(s: World, a: Step, o: Owner, key: Key)
    requires Can(s, a) && key in s.w.table.dialing && a != TakesOff(key)
    requires Holds(Do(s, a), o, key) && !Tells(s, a, key) && !Regains(a, key)
    ensures Holds(s, Was(a, o, key), key) && !Loses(s, a, Was(a, o, key), key)
  {
    hide Do, HttpRace.Do;
    RequestsAfter(s, a);
    DialsAfter(s, a);
    match o
    case Grant(w) => GrantedAfter(s, a, w);
    case AboutToEnd => EndKept(s, a, key);
    case OwnDial(r) =>
      var act := Acts(s, a);
      if act.Some? && act.value.0 == r {
        DialStep(s.w.reqs[r], act.value.1);
      }
  }

  /** Exactly when a mark that somebody will take off still has somebody after a step that leaves it
      there: when the step binds its thread to take it off, or leaves some owner his dial. */
  lemma OwnedExactly(s: World, a: Step, key: Key)
    requires Can(s, a) && Owned(s, key) && key in s.w.table.dialing && a != TakesOff(key)
    ensures Owned(Do(s, a), key) <==>
            Tells(s, a, key) || exists o :: Holds(s, o, key) && !Loses(s, a, o, key)
  {
    hide Do, Holds, Loses, Tells;
    var t := Do(s, a);
    if Tells(s, a, key) {
      ToldOwned(s, a, key);
    } else if o :| Holds(s, o, key) && !Loses(s, a, o, key) {
      KeptOwned(s, a, o, key);
    } else if Owned(t, key) {
      var o :| Holds(t, o, key);
      if Regains(a, key) {
        var p :| Holds(s, p, key);
        RegainLosesNothing(s, a, p, key);
      } else {
        HeldBefore(s, a, o, key);
      }
    }
  }

  lemma ToldOwned(s: World, a: Step, key: Key)
    requires Can(s, a) && Tells(s, a, key) && a != TakesOff(key)
    ensures Owned(Do(s, a), key)
  {
    hide Do;
    EndKept(s, a, key);
    assert Holds(Do(s, a), AboutToEnd, key);
  }

  lemma KeptOwned(s: World, a: Step, o: Owner, key: Key)
    requires Can(s, a) && a != TakesOff(key) && Holds(s, o, key) && !Loses(s, a, o, key)
    ensures Owned(Do(s, a), key)
  {
    hide Do, Loses, Tells;
    if Tells(s, a, key) {
      ToldOwned(s, a, key);
    } else {
      match o
      case Grant(w) => GrantKept(s, a, w, key);
      case OwnDial(r) => DialKept(s, a, r, key);
      case AboutToEnd =>
        EndKept(s, a, key);
        assert Holds(Do(s, a), AboutToEnd, key);
    }
  }

  lemma RegainLosesNothing(s: World, a: Step, o: Owner, key: Key)
    requires Regains(a, key)
    ensures !Loses(s, a, o, key)
  {
  }

  // ----- Every run

  /** Whether a step could make anybody lose a dial: nothing but guards that are plain to see. */
  predicate Careless(s: World, a: Step) {
    match a
    case Publish(r, _) => !Bound(s, r)
    case Told(r) => r in s.d.own && r !in s.d.setup
    case Move(r, k) => r in s.d.own && s.d.own[r] != k
    case Dial(w) => UrlOf(s.d, w.req) != w.key || (w.req in s.d.own && s.d.own[w.req] != w.key)
    case Plain(Down(w)) => w.req in s.d.own && w.req !in s.d.setup && Hears(s, w.req, w.park)
    case Plain(Region(r, c)) => r in s.d.own && r !in s.d.setup && c.Fails? && c.quic && Hears(s, r, c.token)
    case _ => false
  }

  lemma OnlyCarelessLoses(s: World, a: Step, o: Owner, key: Key)
    requires Holds(s, o, key) && Loses(s, a, o, key)
    ensures Careless(s, a)
  {
  }

  ghost predicate Inv(s: World) {
    HttpWait.Inv(s.w) && forall key :: key in s.w.table.dialing ==> Owned(s, key)
  }

  lemma StepKeepsInv(s: World, a: Step)
    requires Inv(s) && Can(s, a) && !Careless(s, a)
    ensures Inv(Do(s, a))
  {
    hide Do, Careless, Holds, Loses, HttpWait.Inv;
    WaitsKept(s, a);
    var t := Do(s, a);
    forall key | key in t.w.table.dialing ensures Owned(t, key) {
      MarksAfter(s, a, key);
      if key in s.w.table.dialing {
        var o :| Holds(s, o, key);
        if Loses(s, a, o, key) {
          OnlyCarelessLoses(s, a, o, key);
        }
        KeptOwned(s, a, o, key);
      } else {
        NewMark(s, a, a.a.w);
      }
    }
  }

  lemma NewMark(s: World, a: Step, w: Waiter)
    requires Can(s, a) && a == Plain(HttpWait.Ask(w)) && w.key !in s.w.table.dialing
    ensures Owned(Do(s, a), w.key)
  {
    hide Do;
    GrantedAfter(s, a, w);
    assert Holds(Do(s, a), Grant(w), w.key);
  }

  lemma WaitsKept(s: World, a: Step)
    requires HttpWait.Inv(s.w) && Can(s, a)
    ensures HttpWait.Inv(Do(s, a).w)
  {
    hide HttpWait.Inv, HttpWait.Do, Own, Setup, Ending, Failing, Url;
    SeenCan(s, a);
    if Seen(a).Some? {
      HttpWait.StepKeepsInv(s.w, Seen(a).value);
    }
  }

  function Run(s: World, run: seq<Step>): Option<World>
    decreases |run|
  {
    if run == [] then Some(s)
    else if !Can(s, run[0]) then None
    else Run(Do(s, run[0]), run[1..])
  }

  predicate Careful(s: World, run: seq<Step>)
    decreases |run|
  {
    run == [] || (Can(s, run[0]) ==> !Careless(s, run[0]) && Careful(Do(s, run[0]), run[1..]))
  }

  lemma {:induction false} InvAlways(s: World, run: seq<Step>)
    requires Inv(s) && Run(s, run).Some? && Careful(s, run)
    ensures Inv(Run(s, run).value)
    decreases |run|
  {
    hide Inv, Can, Do, Careless;
    if run != [] {
      StepKeepsInv(s, run[0]);
      InvAlways(Do(s, run[0]), run[1..]);
    }
  }

  /** Nothing waited for, nothing marked. */
  predicate Quiet(s: World) { s.w.table == EMPTY && forall r :: r in s.w.reqs ==> s.w.reqs[r].park == 0 }

  /** Over every run from there in which nobody is careless: whoever is on the list waits for an origin
      that some thread has been granted, some request is dialling and will hear of, or some thread is about
      to take the mark off. So no wait on the list is for an answer that is not coming. */
  lemma EveryMarkEnds(s: World, run: seq<Step>, w: Waiter) returns (o: Owner)
    requires Quiet(s) && Run(s, run).Some? && Careful(s, run) && w in Run(s, run).value.w.table.waiting
    ensures var t := Run(s, run).value;
            w.key in t.w.table.dialing && Holds(t, o, w.key)
  {
    hide Run, Careful, Holds;
    InvAlways(s, run);
    var t := Run(s, run).value;
    assert w.key in t.w.table.dialing by {
      Listed(t.w.table, w);
    }
    assert Owned(t, w.key);
    o :| Holds(t, o, w.key);
  }

  lemma Listed(t: Table, w: Waiter)
    requires HttpDial.Inv(t) && w in t.waiting
    ensures w.key in t.dialing
  {
  }

  // ----- A mark that nobody takes off

  ghost predicate OnlyOwner(s: World, o: Owner, key: Key) {
    Holds(s, o, key) && forall p :: Holds(s, p, key) ==> p == o
  }

  /** A request ends while its dial is being set up: it has no socket yet to close, so nobody is bound to
      take the mark off, and the dial goes on. */
  lemma EndedInSetup(s: World, r: nat, err: HttpRace.Error, key: Key)
    requires Bound(s, r) && s.w.reqs[r].quic.dial.None? && r in s.d.setup && OnlyOwner(s, OwnDial(r), key)
    requires key in s.w.table.dialing
    ensures var a := Plain(HttpWait.Region(r, HttpRace.Finish(err)));
            && Can(s, a) && var t := Do(s, a);
            && !Bound(t, r) && r in t.w.reqs && r in t.d.setup && OnlyOwner(t, OwnDial(r), key)
            && key in t.w.table.dialing
  {
    hide Do, HttpRace.Do, Holds;
    var a := Plain(HttpWait.Region(r, HttpRace.Finish(err)));
    var t := Do(s, a);
    FinishStep(s.w.reqs[r], err);
    RequestsAfter(s, a);
    DialsAfter(s, a);
    MarksAfter(s, a, key);
    NotTold(s, a, key);
    DialKept(s, a, r, key);
    forall p | Holds(t, p, key) ensures p == OwnDial(r) {
      HeldBefore(s, a, p, key);
    }
  }

  lemma FinishStep(x: HttpRace.Exchange, err: HttpRace.Error)
    requires x.quic.dial.None?
    ensures var (y, r) := HttpRace.Do(x, HttpRace.Finish(err)); !y.held.bound && r.closeQuic.None?
  {
  }

  lemma NotTold(s: World, a: Step, key: Key)
    requires a.Plain? && a.a.Region? && a.a.req in s.w.reqs
    requires HttpRace.Do(s.w.reqs[a.a.req], a.a.a).1.closeQuic.None?
    ensures EndsDial(s, a).None?
  {
    hide HttpRace.Do;
  }

  /** Its socket is then published to a request that will not hear of it. */
  lemma UnheardIsLost(s: World, r: nat, id: nat, key: Key)
    requires !Bound(s, r) && r in s.w.reqs && r in s.d.setup && OnlyOwner(s, OwnDial(r), key)
    requires key in s.w.table.dialing
    ensures var a := Publish(r, id); Can(s, a) && key in Do(s, a).w.table.dialing && !Owned(Do(s, a), key)
  {
    hide Do, Holds;
    var a := Publish(r, id);
    MarksAfter(s, a, key);
    OwnedExactly(s, a, key);
  }

  /** Nobody has anything to do with a dial. */
  predicate Idle(s: World) {
    && Quiet(s) && s.w.granted == multiset{} && s.w.asking == multiset{}
    && s.d.own == map[] && s.d.setup == {} && s.d.ending == multiset{}
  }

  /** The run in which a mark is left behind for good: a request that dials is ended in the moment between
      deciding to dial and its socket being published. */
  lemma MarkLeftBehind(s: World, r: nat, err: HttpRace.Error, id: nat) returns (run: seq<Step>)
    requires Idle(s) && Bound(s, r) && s.w.reqs[r].quic == HttpRace.GONE
    ensures Run(s, run).Some?
    ensures var t, key := Run(s, run).value, UrlOf(s.d, r); key in t.w.table.dialing && !Owned(t, key)
  {
    hide Do, Can, Run, Idle, OnlyOwner;
    var key := UrlOf(s.d, r);
    var w, t := DialBegun(s, r);
    var a4, a5 := Plain(HttpWait.Region(r, HttpRace.Finish(err))), Publish(r, id);
    EndedInSetup(t, r, err, key);
    var u := Do(t, a4);
    UnheardIsLost(u, r, id, key);
    var r5 := [a5] + [];
    var r4 := [a4] + r5;
    RunNext(u, a5, []);
    RunNext(t, a4, r5);
    NoMore(Do(u, a5));
    run := [Plain(HttpWait.Begin(r, key))] + ([Plain(HttpWait.Ask(w))] + ([Dial(w)] + r4));
    RunNext(s, Plain(HttpWait.Begin(r, key)), [Plain(HttpWait.Ask(w))] + ([Dial(w)] + r4));
    var s1 := Do(s, Plain(HttpWait.Begin(r, key)));
    RunNext(s1, Plain(HttpWait.Ask(w)), [Dial(w)] + r4);
    RunNext(Do(s1, Plain(HttpWait.Ask(w))), Dial(w), r4);
  }

  lemma RunNext(s: World, a: Step, rest: seq<Step>)
    requires Can(s, a)
    ensures Run(s, [a] + rest) == Run(Do(s, a), rest)
  {
    hide Do, Can;
    assert ([a] + rest)[1..] == rest;
  }

  lemma NoMore(s: World)
    ensures Run(s, []) == Some(s)
  {
  }

  lemma Begun(s: World, r: nat)
    requires Idle(s) && Bound(s, r)
    ensures var key := UrlOf(s.d, r);
            var a := Plain(HttpWait.Begin(r, key));
            && Can(s, a) && var t := Do(s, a);
            && t.d == s.d && t.w.table == EMPTY && t.w.granted == multiset{} && r in t.w.reqs
            && t.w.reqs[r].held == s.w.reqs[r].held && t.w.reqs[r].quic == s.w.reqs[r].quic
            && t.w.asking == multiset{Waiter(r, key, t.w.reqs[r].park)}
  {
    hide HttpRace.NextPark, HttpRace.Live;
  }

  lemma Asked(s: World, w: Waiter)
    requires w in s.w.asking && s.w.table == EMPTY && s.w.granted == multiset{}
    ensures var a := Plain(HttpWait.Ask(w));
            && Can(s, a) && var t := Do(s, a);
            t.d == s.d && t.w.table.dialing == [w.key] && t.w.granted == multiset{w} && t.w.reqs == s.w.reqs
  {
  }

  lemma Dialled(s: World, w: Waiter)
    requires s.w.granted == multiset{w} && w.req in s.w.reqs && s.d.own == map[] && s.d.ending == multiset{}
    requires UrlOf(s.d, w.req) == w.key && w.key in s.w.table.dialing
    requires s.w.reqs[w.req].held.bound && s.w.reqs[w.req].quic == HttpRace.GONE
    ensures var a := Dial(w);
            && Can(s, a) && var t := Do(s, a);
            && Bound(t, w.req) && t.w.reqs[w.req].quic.dial.None? && w.req in t.d.setup && w.key in t.w.table.dialing
            && OnlyOwner(t, OwnDial(w.req), w.key)
  {
    hide HttpRace.NextPark, HttpRace.Live;
    var t := Do(s, Dial(w));
    assert t.w.granted == multiset{} && t.d.ending == multiset{} && t.d.own == map[w.req := w.key];
    assert Holds(t, OwnDial(w.req), w.key);
  }

  /** The first three steps: the wait is begun, the dial granted, and begun. */
  lemma DialBegun(s: World, r: nat) returns (w: Waiter, t: World)
    requires Idle(s) && Bound(s, r) && s.w.reqs[r].quic == HttpRace.GONE
    ensures var key := UrlOf(s.d, r);
            var a := Plain(HttpWait.Begin(r, key));
            && Can(s, a) && Can(Do(s, a), Plain(HttpWait.Ask(w)))
            && Can(Do(Do(s, a), Plain(HttpWait.Ask(w))), Dial(w))
            && t == Do(Do(Do(s, a), Plain(HttpWait.Ask(w))), Dial(w))
            && Bound(t, r) && t.w.reqs[r].quic.dial.None? && r in t.d.setup && key in t.w.table.dialing
            && OnlyOwner(t, OwnDial(r), key)
  {
    hide Do, Can, OnlyOwner;
    var key := UrlOf(s.d, r);
    Begun(s, r);
    var s1 := Do(s, Plain(HttpWait.Begin(r, key)));
    w := Waiter(r, key, s1.w.reqs[r].park);
    Asked(s1, w);
    var s2 := Do(s1, Plain(HttpWait.Ask(w)));
    Dialled(s2, w);
    t := Do(s2, Dial(w));
  }

  // ----- Every dial ends once, and every failure is told once

  predicate Fails(a: Step, r: nat) { (a.NotComing? || a.Refused? || a.DialFails?) && a.r == r }

  function TimesFailed(run: seq<Step>, r: nat): nat {
    if run == [] then 0 else (if Fails(run[0], r) then 1 else 0) + TimesFailed(run[1..], r)
  }

  function TimesTold(run: seq<Step>, r: nat): nat {
    if run == [] then 0 else (if run[0] == Told(r) then 1 else 0) + TimesTold(run[1..], r)
  }

  /** Over every run a request has been told of a failed dial as often as its dials have failed, less the
      times it has yet to hear. */
  lemma {:induction false} FailuresBalance(s: World, run: seq<Step>, r: nat)
    requires Run(s, run).Some?
    ensures Run(s, run).value.d.failing[r] + TimesTold(run, r) == s.d.failing[r] + TimesFailed(run, r)
    decreases |run|
  {
    hide Do, CanPlain;
    if run != [] {
      DialsAfter(s, run[0]);
      FailuresBalance(Do(s, run[0]), run[1..], r);
    }
  }

  /** The last step that speaks decides: a dial is being set up from when it begins until it has a socket
      or could not be started. */
  function SettingUp(run: seq<Step>, r: nat, first: bool): bool
    decreases |run|
  {
    if run == [] then first
    else
      var a := run[0];
      SettingUp(run[1..], r, if a.Dial? && a.w.req == r then true
                             else if (a.Publish? || a.NotComing?) && a.r == r then false
                             else first)
  }

  lemma {:induction false} SetupExactly(s: World, run: seq<Step>, r: nat)
    requires Run(s, run).Some?
    ensures r in Run(s, run).value.d.setup <==> SettingUp(run, r, r in s.d.setup)
    decreases |run|
  {
    hide Do, CanPlain;
    if run != [] {
      DialsAfter(s, run[0]);
      SetupExactly(Do(s, run[0]), run[1..], r);
    }
  }

  /** Whether a dial of its own is to a request's name, by which steps began and ended one. */
  predicate Owning(s: World, run: seq<Step>, r: nat, first: bool)
    requires Run(s, run).Some?
    decreases |run|
  {
    if run == [] then first
    else
      var a := run[0];
      Owning(Do(s, a), run[1..], r,
             if EndsDial(s, a) == Some(r) then false else if a.Dial? && a.w.req == r then true else first)
  }

  lemma {:induction false} OwnExactly(s: World, run: seq<Step>, r: nat)
    requires Run(s, run).Some?
    ensures r in Run(s, run).value.d.own <==> Owning(s, run, r, r in s.d.own)
    decreases |run|
  {
    hide Do, CanPlain;
    if run != [] {
      DialsAfter(s, run[0]);
      OwnExactly(Do(s, run[0]), run[1..], r);
    }
  }

  /** How many dials for an origin have ended in a run. */
  function TimesEnded(s: World, run: seq<Step>, key: Key): nat
    requires Run(s, run).Some?
    decreases |run|
  {
    if run == [] then 0
    else (if Tells(s, run[0], key) then 1 else 0) + TimesEnded(Do(s, run[0]), run[1..], key)
  }

  function TimesTakenOff(run: seq<Step>, key: Key): nat {
    if run == [] then 0 else (if run[0] == TakesOff(key) then 1 else 0) + TimesTakenOff(run[1..], key)
  }

  /** Over every run an origin's mark has been taken off as often as dials for it have ended, less the
      times that is still to come. */
  lemma {:induction false} EndingsBalance(s: World, run: seq<Step>, key: Key)
    requires Run(s, run).Some?
    ensures Run(s, run).value.d.ending[key] + TimesTakenOff(run, key) == s.d.ending[key] + TimesEnded(s, run, key)
    decreases |run|
  {
    hide Do, CanPlain;
    if run != [] {
      DialsAfter(s, run[0]);
      EndingsBalance(Do(s, run[0]), run[1..], key);
    }
  }
}
