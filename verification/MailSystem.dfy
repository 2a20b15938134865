/** The whole system: the mail server with any number of clients, refined to one sequence of messages per user behind a
    login. */
module MailSystem {
  import opened Text
  import opened Messages
  import opened MessageParsing
  import opened Delivery
  import opened Mailbox
  import FM = FileManager
  import opened MailServer
  import Lockout
  import opened Client
  import opened Exchange

  // ---------------------------------------------------------------- connections and events

  /** What belongs to one connection: the server's session and parser, and the client. */
  datatype Ends = Ends(
    session: Lockout.Session,
    parser: ParserState,
    inbox: string,
    responses: ResponseState,
    user: User)

  /** The mail directories and the locked addresses, which all connections share, and the open connections. */
  datatype System = System(dirs: map<string, FM.Directory>, locked: Lockout.Locked, ends: map<nat, Ends>)

  datatype Event =
    | Connect(id: nat, ip: string)
    | Turn(id: nat, request: Message, env: Env)
    | Sweep(now: int)   // the accept loop has old locks removed

  function NewEnds(ip: string): Ends {
    Ends(Lockout.Session(ip, 0, false), START, "",
         ResponseState(Idle, 0, [], false, SendMessage("", [], "", "", []), START), User("", false))
  }

  /** One connection together with what it shares. */
  function Seen(s: System, id: nat): World
    requires id in s.ends
  {
    var e := s.ends[id];
    World(ServerState(s.dirs, e.session, s.locked), e.parser, e.inbox, e.responses, e.user)
  }

  predicate Possible(s: System, e: Event) {
    match e
    case Connect(id, _) => id !in s.ends
    case Turn(id, _, _) => id in s.ends
    case Sweep(_) => true
  }

  /** A connection without a response is over. */
  function Happen(s: System, e: Event, limit: nat, lockout: int): (System, Option<Response>)
    requires limit >= 2 && Possible(s, e)
  {
    match e
    case Connect(id, ip) => (s.(ends := s.ends[id := NewEnds(ip)]), None)
    case Sweep(now) => (s.(locked := Lockout.Unlock(s.locked, now, lockout)), None)
    case Turn(id, request, env) =>
      var (w, response) := RoundTrip(Seen(s, id), request, env, limit);
      var ends :=
        if response.None? then s.ends - {id}
        else s.ends[id := Ends(w.server.session, w.parser, w.inbox, w.responses, w.user)];
      (System(w.server.dirs, w.server.locked, ends), response)
  }

  function RunSystem(s: System, events: seq<Event>, limit: nat, lockout: int): (System, seq<Option<Response>>)
    requires limit >= 2 && PossibleRun(s, events, limit, lockout)
    decreases |events|
  {
    if events == [] then (s, [])
    else
      var (t, response) := Happen(s, events[0], limit, lockout);
      var (last, responses) := RunSystem(t, events[1..], limit, lockout);
      (last, [response] + responses)
  }

  predicate PossibleRun(s: System, events: seq<Event>, limit: nat, lockout: int)
    requires limit >= 2
    decreases |events|
  {
    events != [] ==>
      && Possible(s, events[0])
      && PossibleRun(Happen(s, events[0], limit, lockout).0, events[1..], limit, lockout)
  }

  ghost predicate GrantedEvent(s: System, e: Event, limit: nat)
    requires limit >= 2 && Possible(s, e)
  {
    e.Turn? ==> WireMessage(e.request, limit) && Granted(Seen(s, e.id).server, e.request, e.env, limit)
  }

  ghost predicate GrantedRun(s: System, events: seq<Event>, limit: nat, lockout: int)
    requires limit >= 2 && PossibleRun(s, events, limit, lockout)
    decreases |events|
  {
    events != [] ==>
      && GrantedEvent(s, events[0], limit)
      && GrantedRun(Happen(s, events[0], limit, lockout).0, events[1..], limit, lockout)
  }

  predicate AllInStep(s: System) {
    forall id :: id in s.ends ==> InStep(Seen(s, id))
  }

  /** The plain account of the system: one sequence of messages per user, the sessions of the open connections, and the
      locked addresses. Nothing else of the system appears in it. */
  datatype Account = Account(boxes: Boxes, sessions: map<nat, Lockout.Session>, locked: Lockout.Locked)

  function AccountOf(s: System): Account {
    Account(BoxesOf(s.dirs), map id | id in s.ends :: s.ends[id].session, s.locked)
  }

  function AccountStep(a: Account, e: Event, lockout: int): (Account, Option<Response>) {
    match e
    case Connect(id, ip) => (a.(sessions := a.sessions[id := Lockout.Session(ip, 0, false)]), None)
    case Sweep(now) => (a.(locked := Lockout.Unlock(a.locked, now, lockout)), None)
    case Turn(id, request, env) =>
      if id !in a.sessions then (a, None)
      else
        var session := a.sessions[id];
        var (boxes, response) := Expected(a.boxes, session.loggedIn, GateOf(session, a.locked, env), request);
        var (next, locked) := LoginAfter(session, a.locked, request, env);
        (Account(boxes, if response.None? then a.sessions - {id} else a.sessions[id := next], locked), response)
  }

  function RunAccount(a: Account, events: seq<Event>, lockout: int): (Account, seq<Option<Response>>)
    decreases |events|
  {
    if events == [] then (a, [])
    else
      var (b, response) := AccountStep(a, events[0], lockout);
      var (last, responses) := RunAccount(b, events[1..], lockout);
      (last, [response] + responses)
  }

  /** What holds between two events. */
  ghost predicate Sound(s: System) {
    AllInStep(s) && Sane(s.dirs)
  }

  lemma HappenRefines(s: System, e: Event, limit: nat, lockout: int)
    requires limit >= 16 && Sound(s) && Possible(s, e) && GrantedEvent(s, e, limit)
    ensures var (t, response) := Happen(s, e, limit, lockout);
      Sound(t) && (AccountOf(t), response) == AccountStep(AccountOf(s), e, lockout)
  {
    hide Happen, AccountStep, AccountOf, Sound, GrantedEvent;
    match e {
      case Turn(id, request, env) => TurnRefines(s, id, request, env, limit, lockout);
      case Connect(id, ip) => ConnectRefines(s, id, ip, limit, lockout);
      case Sweep(now) => SweepRefines(s, now, limit, lockout);
    }
  }

  lemma ConnectRefines(s: System, id: nat, ip: string, limit: nat, lockout: int)
    requires limit >= 2 && Sound(s) && id !in s.ends
    ensures var (t, response) := Happen(s, Connect(id, ip), limit, lockout);
      Sound(t) && (AccountOf(t), response) == AccountStep(AccountOf(s), Connect(id, ip), lockout)
  {
    hide Sane, BoxesOf, RoundTrip;
    var t := Happen(s, Connect(id, ip), limit, lockout).0;
    assert AccountOf(t).sessions == AccountOf(s).sessions[id := Lockout.Session(ip, 0, false)];
    forall i | i in t.ends ensures InStep(Seen(t, i)) {
      assert i != id ==> InStep(Seen(s, i));
    }
  }

  lemma SweepRefines(s: System, now: int, limit: nat, lockout: int)
    requires limit >= 2 && Sound(s)
    ensures var (t, response) := Happen(s, Sweep(now), limit, lockout);
      Sound(t) && (AccountOf(t), response) == AccountStep(AccountOf(s), Sweep(now), lockout)
  {
    hide Sane, BoxesOf, RoundTrip, Ready, Awaiting;
    var t := Happen(s, Sweep(now), limit, lockout).0;
    forall i | i in t.ends ensures InStep(Seen(t, i)) {
      assert InStep(Seen(s, i));
    }
  }

  lemma TurnRefines(s: System, id: nat, request: Message, env: Env, limit: nat, lockout: int)
    requires limit >= 16 && Sound(s) && id in s.ends && GrantedEvent(s, Turn(id, request, env), limit)
    ensures var (t, response) := Happen(s, Turn(id, request, env), limit, lockout);
      && Sound(t)
      && (AccountOf(t), response) == AccountStep(AccountOf(s), Turn(id, request, env), lockout)
  {
    hide RoundTrip, Expected, LoginAfter, WireMessage, Granted, Sane, BoxesOf, GateOf, Ready, Awaiting;
    var (t, response) := Happen(s, Turn(id, request, env), limit, lockout);
    assert InStep(Seen(s, id));
    ExchangeRefines(Seen(s, id), request, env, limit);
    OtherSessions(s, t, id, response.None?);
    forall i | i in t.ends ensures InStep(Seen(t, i)) {
      assert i != id ==> InStep(Seen(s, i));
    }
  }

  /** The sessions of the account, when only one connection changes or ends. */
  lemma OtherSessions(s: System, t: System, id: nat, ended: bool)
    requires ended ==> t.ends == s.ends - {id}
    requires !ended ==> id in t.ends && t.ends == s.ends[id := t.ends[id]]
    ensures var sessions := AccountOf(s).sessions;
      AccountOf(t).sessions == if ended then sessions - {id} else sessions[id := t.ends[id].session]
  {
    hide BoxesOf;
  }

  /** The whole system: any number of clients come, ask in any order and go, and addresses are locked and unlocked.
      Through printing, framing, parsing, the file store, the reply and the client's parser, every response is the
      one the plain account gives for the same events, and the directories, logins and locks are the account's. */
  lemma {:induction false} SystemRefines(s: System, events: seq<Event>, limit: nat, lockout: int)
    requires limit >= 16 && Sound(s)
    requires PossibleRun(s, events, limit, lockout) && GrantedRun(s, events, limit, lockout)
    ensures var (last, responses) := RunSystem(s, events, limit, lockout);
      Sound(last) && (AccountOf(last), responses) == RunAccount(AccountOf(s), events, lockout)
    decreases |events|
  {
    hide Happen, Sound, AccountOf, AccountStep, GrantedEvent, Possible;
    if events != [] {
      HappenRefines(s, events[0], limit, lockout);
      SystemRefines(Happen(s, events[0], limit, lockout).0, events[1..], limit, lockout);
    }
  }

  // ---------------------------------------------------------------- settled boxes

  lemma StepSettled(a: Account, e: Event, limit: nat, lockout: int)
    requires limit >= 16 && SettledBoxes(a.boxes, limit) && (e.Turn? ==> WireMessage(e.request, limit))
    ensures SettledBoxes(AccountStep(a, e, lockout).0.boxes, limit)
  {
    hide SettledBoxes, Expected, WireMessage, GateOf, LoginAfter;
    if e.Turn? && e.id in a.sessions {
      var session := a.sessions[e.id];
      ExpectedSettled(a.boxes, session.loggedIn, GateOf(session, a.locked, e.env), e.request, limit);
    }
  }

  /** Boxes of settled messages hold settled messages ever after, so every READ gives back what is stored. */
  lemma {:induction false} SystemStaysSettled(s: System, events: seq<Event>, limit: nat, lockout: int)
    requires limit >= 16 && Sound(s) && SettledBoxes(BoxesOf(s.dirs), limit)
    requires PossibleRun(s, events, limit, lockout) && GrantedRun(s, events, limit, lockout)
    ensures SettledBoxes(BoxesOf(RunSystem(s, events, limit, lockout).0.dirs), limit)
    decreases |events|
  {
    hide Happen, Sound, SettledBoxes, AccountStep, Possible, BoxesOf, WireMessage, Granted;
    if events != [] {
      HappenRefines(s, events[0], limit, lockout);
      StepSettled(AccountOf(s), events[0], limit, lockout);
      SystemStaysSettled(Happen(s, events[0], limit, lockout).0, events[1..], limit, lockout);
    }
  }

  // ---------------------------------------------------------------- the menus

  /** Every client and the server agree about that client's login. */
  predicate AllMirror(s: System) {
    forall id :: id in s.ends ==> Mirrors(Seen(s, id))
  }

  /** Clients keep to their menus, and no LOGIN has an empty user name. */
  predicate MenuRun(s: System, events: seq<Event>, limit: nat, lockout: int)
    requires limit >= 2 && PossibleRun(s, events, limit, lockout)
    decreases |events|
  {
    events != [] ==>
      && MenuEvent(s, events[0])
      && MenuRun(Happen(s, events[0], limit, lockout).0, events[1..], limit, lockout)
  }

  predicate MenuEvent(s: System, e: Event)
    requires Possible(s, e)
  {
    e.Turn? ==> MenuAllows(s.ends[e.id].user, e.request) && (e.request.Login? ==> e.request.username != "")
  }

  lemma HappenMirrors(s: System, e: Event, limit: nat, lockout: int)
    requires limit >= 16 && Sound(s) && AllMirror(s) && Possible(s, e) && GrantedEvent(s, e, limit) && MenuEvent(s, e)
    ensures AllMirror(Happen(s, e, limit, lockout).0)
  {
    hide RoundTrip, WireMessage, Sane, GateOf, InStep, MenuAllows, BoxTravels, AllListedLast;
    match e {
      case Turn(id, request, env) =>
        assert InStep(Seen(s, id)) && Mirrors(Seen(s, id));
        MirrorIff(Seen(s, id), request, env, limit);
      case _ =>
    }
  }

  /** Then both ends of every connection agree about the login throughout. */
  lemma {:induction false} MenusKeepMirror(s: System, events: seq<Event>, limit: nat, lockout: int)
    requires limit >= 16 && Sound(s) && AllMirror(s) && PossibleRun(s, events, limit, lockout)
    requires GrantedRun(s, events, limit, lockout) && MenuRun(s, events, limit, lockout)
    ensures AllMirror(RunSystem(s, events, limit, lockout).0)
    decreases |events|
  {
    hide Happen, Sound, AllMirror, GrantedEvent, MenuEvent, Possible, AccountOf, AccountStep;
    if events != [] {
      HappenRefines(s, events[0], limit, lockout);
      HappenMirrors(s, events[0], limit, lockout);
      MenusKeepMirror(Happen(s, events[0], limit, lockout).0, events[1..], limit, lockout);
    }
  }

  /** Under which name each connection that is logged in has logged in last, read off the events alone. */
  function NamesStep(names: map<nat, string>, a: Account, e: Event): map<nat, string> {
    match e
    case Connect(id, _) => names - {id}
    case Sweep(_) => names
    case Turn(id, request, env) =>
      if id !in a.sessions || !request.Login? then names
      else if GateOf(a.sessions[id], a.locked, env).Admitted? then names[id := request.username]
      else names - {id}
  }

  function NamesRun(names: map<nat, string>, a: Account, events: seq<Event>, lockout: int): map<nat, string>
    decreases |events|
  {
    if events == [] then names
    else NamesRun(NamesStep(names, a, events[0]), AccountStep(a, events[0], lockout).0, events[1..], lockout)
  }

  /** Every client that is logged in goes by the name of its last accepted LOGIN, and the others by none. */
  predicate Known(s: System, names: map<nat, string>) {
    forall id :: id in s.ends ==>
      s.ends[id].user == if id in names then User(names[id], true) else User("", false)
  }

  lemma HappenNames(s: System, e: Event, names: map<nat, string>, limit: nat, lockout: int)
    requires limit >= 16 && Sound(s) && Known(s, names)
    requires Possible(s, e) && GrantedEvent(s, e, limit) && MenuEvent(s, e)
    ensures Known(Happen(s, e, limit, lockout).0, NamesStep(names, AccountOf(s), e))
  {
    hide RoundTrip, WireMessage, Sane, GateOf, InStep, BoxTravels, AllListedLast, BoxesOf, Granted;
    match e {
      case Turn(id, request, env) =>
        assert InStep(Seen(s, id));
        TurnNames(s, id, request, env, names, limit, lockout);
      case _ =>
    }
  }

  lemma TurnNames(
      s: System, id: nat, request: Message, env: Env, names: map<nat, string>, limit: nat, lockout: int)
    requires limit >= 16 && id in s.ends && InStep(Seen(s, id)) && Known(s, names) && Sane(s.dirs)
    requires MenuEvent(s, Turn(id, request, env)) && GrantedEvent(s, Turn(id, request, env), limit)
    ensures var e := Turn(id, request, env);
      Known(Happen(s, e, limit, lockout).0, NamesStep(names, AccountOf(s), e))
  {
    hide RoundTrip, WireMessage, Sane, GateOf, InStep, BoxTravels, AllListedLast, BoxesOf, Expected, LoginAfter;
    var w := Seen(s, id);
    var user := s.ends[id].user;
    ExchangeRefines(w, request, env, limit);
    if request.Login? {
      LoginNames(w, request.username, request.password, env, limit);
      if RoundTrip(w, request, env, limit).1.Some? {
        LoginOpen(w, request, env, limit);
      }
    } else if user.loggedIn {
      UserKept(w, request, env, limit);
    } else {
      QuitCloses(w, env, limit);
    }
  }

  lemma LoginOpen(w: World, request: Message, env: Env, limit: nat)
    requires limit >= 16 && InStep(w) && WireMessage(request, limit) && request.Login?
    requires RoundTrip(w, request, env, limit).1.Some?
    ensures !GateOf(w.server.session, w.server.locked, env).LockedOut?
  {
    hide RoundTrip, WireMessage, InStep;
    ExchangeLockStep(w, request, env, limit);
  }

  lemma QuitCloses(w: World, env: Env, limit: nat)
    requires limit >= 16 && InStep(w)
    ensures RoundTrip(w, Quit, env, limit).1 == None
  {
    hide RoundTrip, InStep;
    ExchangeLockStep(w, Quit, env, limit);
  }

  /** Over such runs: while a client is logged in its name is that of its last accepted LOGIN. */
  lemma {:induction false} NamesKept(
      s: System, events: seq<Event>, names: map<nat, string>, limit: nat, lockout: int)
    requires limit >= 16 && Sound(s) && Known(s, names) && PossibleRun(s, events, limit, lockout)
    requires GrantedRun(s, events, limit, lockout) && MenuRun(s, events, limit, lockout)
    ensures Known(RunSystem(s, events, limit, lockout).0, NamesRun(names, AccountOf(s), events, lockout))
    decreases |events|
  {
    hide Happen, Sound, Known, GrantedEvent, MenuEvent, Possible, AccountOf, AccountStep, NamesStep;
    if events != [] {
      HappenRefines(s, events[0], limit, lockout);
      HappenNames(s, events[0], names, limit, lockout);
      NamesKept(Happen(s, events[0], limit, lockout).0, events[1..], NamesStep(names, AccountOf(s), events[0]), limit,
                lockout);
    }
  }

  // ---------------------------------------------------------------- the locks of these runs

  /** The steps of the lockout model that a run takes so far, and which of its connections each open connection is: a
      number used again after a connection has ended is a new connection there. */
  datatype Tracked = Tracked(trace: seq<Lockout.Action>, names: map<nat, nat>, next: nat)

  function Track(a: Account, e: Event, t: Tracked): Tracked {
    match e
    case Connect(id, ip) =>
      Tracked(t.trace + [Lockout.Connect(t.next, ip)], t.names[id := t.next], t.next + 1)
    case Sweep(now) => t.(trace := t.trace + [Lockout.Update(now)])
    case Turn(id, request, env) =>
      if !request.Login? || id !in a.sessions || id !in t.names then t
      else
        var k := t.names[id];
        var checked := t.trace + [Lockout.Check(k)];
        t.(trace := if a.sessions[id].ip in a.locked then checked
                    else checked + [Lockout.Outcome(k, env.verdict, env.now)])
  }

  function TrackRun(a: Account, events: seq<Event>, lockout: int, t: Tracked): Tracked
    decreases |events|
  {
    if events == [] then t
    else TrackRun(AccountStep(a, events[0], lockout).0, events[1..], lockout, Track(a, events[0], t))
  }

  /** The locks are those of the lockout model after these steps, and every open connection has its session there. */
  ghost predicate Follows(a: Account, t: Tracked, loaded: Lockout.Locked, lockout: int) {
    && Lockout.ValidTrace(Lockout.Start(loaded), t.trace, lockout)
    && var l := Lockout.After(Lockout.Start(loaded), t.trace, lockout);
    && l.locked == a.locked
    && Named(a, t, l)
  }

  ghost predicate Named(a: Account, t: Tracked, l: Lockout.System) {
    && (forall id :: id in a.sessions ==>
          && id in t.names && t.names[id] in l.conns
          && l.conns[t.names[id]] == Lockout.Conn(a.sessions[id], false))
    && (forall i, j :: i in a.sessions && j in a.sessions && i != j ==> t.names[i] != t.names[j])
    && (forall k :: k in l.conns ==> k < t.next)
  }

  /** One more step of the lockout model. */
  lemma OneMore(loaded: Lockout.Locked, trace: seq<Lockout.Action>, x: Lockout.Action, lockout: int)
    requires Lockout.ValidTrace(Lockout.Start(loaded), trace, lockout)
    requires Lockout.Enabled(Lockout.After(Lockout.Start(loaded), trace, lockout), x)
    ensures Lockout.ValidTrace(Lockout.Start(loaded), trace + [x], lockout)
    ensures Lockout.After(Lockout.Start(loaded), trace + [x], lockout)
         == Lockout.Step(Lockout.After(Lockout.Start(loaded), trace, lockout), x, lockout)
  {
    Lockout.AfterSnoc(Lockout.Start(loaded), trace, x, lockout);
  }

  lemma StepFollows(a: Account, e: Event, t: Tracked, loaded: Lockout.Locked, lockout: int)
    requires Follows(a, t, loaded, lockout)
    ensures Follows(AccountStep(a, e, lockout).0, Track(a, e, t), loaded, lockout)
  {
    hide Lockout.ValidTrace, Lockout.After;
    match e {
      case Connect(id, ip) =>
        OneMore(loaded, t.trace, Lockout.Connect(t.next, ip), lockout);
      case Sweep(now) =>
        OneMore(loaded, t.trace, Lockout.Update(now), lockout);
      case Turn(id, request, env) =>
        if id in a.sessions {
          TurnFollows(a, id, request, env, t, loaded, lockout);
        }
    }
  }

  lemma TurnFollows(
      a: Account, id: nat, request: Message, env: Env, t: Tracked, loaded: Lockout.Locked, lockout: int)
    requires Follows(a, t, loaded, lockout) && id in a.sessions
    ensures var e := Turn(id, request, env);
      Follows(AccountStep(a, e, lockout).0, Track(a, e, t), loaded, lockout)
  {
    hide Lockout.ValidTrace, Lockout.After, Expected, Lockout.LoginSpec, Named;
    var e := Turn(id, request, env);
    var l := Lockout.After(Lockout.Start(loaded), t.trace, lockout);
    assert id in t.names && t.names[id] in l.conns && l.conns[t.names[id]] == Lockout.Conn(a.sessions[id], false) by {
      NamedSession(a, t, l, id);
    }
    var k := t.names[id];
    var session := a.sessions[id];
    var (next, _) := LoginAfter(session, a.locked, request, env);
    var l' := l.(conns := l.conns[k := Lockout.Conn(next, false)], locked := AccountStep(a, e, lockout).0.locked);
    if request.Login? {
      Lockout.LoginIsTwoSteps(l, k, env.verdict, env.now, lockout);
      OneMore(loaded, t.trace, Lockout.Check(k), lockout);
      if session.ip !in a.locked {
        OneMore(loaded, t.trace + [Lockout.Check(k)], Lockout.Outcome(k, env.verdict, env.now), lockout);
      }
    } else {
      assert l' == l;
    }
    NamedAfter(a, AccountStep(a, e, lockout).0, id, next, t, Track(a, e, t), l, l');
  }

  lemma NamedSession(a: Account, t: Tracked, l: Lockout.System, id: nat)
    requires Named(a, t, l) && id in a.sessions
    ensures id in t.names && t.names[id] in l.conns && l.conns[t.names[id]] == Lockout.Conn(a.sessions[id], false)
  {
  }

  /** Only one connection changes, or ends. */
  lemma NamedAfter(
      a: Account, b: Account, id: nat, next: Lockout.Session, t: Tracked, u: Tracked,
      l: Lockout.System, l': Lockout.System)
    requires Named(a, t, l) && id in a.sessions && id in t.names && u.names == t.names && u.next == t.next
    requires b.sessions == a.sessions - {id} || b.sessions == a.sessions[id := next]
    requires t.names[id] in l.conns && l'.conns == l.conns[t.names[id] := Lockout.Conn(next, false)]
    ensures Named(b, u, l')
  {
  }

  /** Every run of the account, and by `SystemRefines` of the system, takes its locks and sessions through a run of the
      lockout model, so what is proved there about the history of locks holds here. */
  lemma {:induction false} RunFollows(
      a: Account, events: seq<Event>, t: Tracked, loaded: Lockout.Locked, lockout: int)
    requires Follows(a, t, loaded, lockout)
    ensures Follows(RunAccount(a, events, lockout).0, TrackRun(a, events, lockout, t), loaded, lockout)
    decreases |events|
  {
    hide Follows, AccountStep, Track;
    if events != [] {
      StepFollows(a, events[0], t, loaded, lockout);
      RunFollows(AccountStep(a, events[0], lockout).0, events[1..], Track(a, events[0], t), loaded, lockout);
    }
  }

  /** The system from its start: the locks and every session are those of the lockout model after the steps tracked. */
  lemma SystemFollowsLockout(s: System, events: seq<Event>, limit: nat, lockout: int)
    requires limit >= 16 && Sound(s) && s.ends == map[]
    requires PossibleRun(s, events, limit, lockout) && GrantedRun(s, events, limit, lockout)
    ensures Follows(AccountOf(RunSystem(s, events, limit, lockout).0),
                    TrackRun(AccountOf(s), events, lockout, Tracked([], map[], 0)), s.locked, lockout)
  {
    hide Sound, Follows, RunAccount, RunSystem, TrackRun, BoxesOf;
    StartFollows(BoxesOf(s.dirs), s.locked, lockout);
    RunFollows(AccountOf(s), events, Tracked([], map[], 0), s.locked, lockout);
    SystemRefines(s, events, limit, lockout);
  }

  /** The outcome of a LOGIN is a matter of the history alone: whether the address is locked (which
      `Lockout.LockedIff` reads off the history), what the directory server says, and whether this makes a third
      failure in a row on the connection. */
  lemma GateFromHistory(a: Account, t: Tracked, loaded: Lockout.Locked, lockout: int, id: nat, env: Env)
    requires Follows(a, t, loaded, lockout) && id in a.sessions
    ensures var session := a.sessions[id];
      var k := t.names[id];
      var failures := Lockout.FailuresSince(t.trace, k);
      && Lockout.AddressOf(t.trace, k) == Some(session.ip)
      && GateOf(session, a.locked, env)
         == if session.ip in Lockout.After(Lockout.Start(loaded), t.trace, lockout).locked then LockedOut
            else if env.verdict.Accepted? then Admitted
            else if env.verdict.Failure() && failures + 1 >= Lockout.MAX_ATTEMPTS then LockedOut
            else Rejected
  {
    hide Lockout.ValidTrace, Lockout.After, Lockout.FailuresSince, Lockout.AddressOf;
    Lockout.CountersAreHistory(loaded, t.trace, lockout);
  }

  /** The start: no connections, and the locks that were loaded. */
  lemma StartFollows(boxes: Boxes, loaded: Lockout.Locked, lockout: int)
    ensures Follows(Account(boxes, map[], loaded), Tracked([], map[], 0), loaded, lockout)
  {
  }
}
