/** Client and server together: one request, its way over the wire, the reply, and the response the client sees. */
module Exchange {
  import opened Text
  import opened Messages
  import opened SendFormat
  import opened MessageParsing
  import opened Framing
  import opened Wire
  import opened Delivery
  import opened Mailbox
  import FM = FileManager
  import opened MailServer
  import Lockout
  import opened Client
  import opened Arrival
  import opened Failures

  /** Both ends of one connection and the mail spool; `inbox` holds reply bytes the client has not consumed. */
  datatype World = World(
    server: ServerState,
    parser: ParserState,
    inbox: string,
    responses: ResponseState,
    user: User)

  /** Bytes go to the server, through its receive loop and to its handlers, and the client awaits the response to a
      request of this kind. None: no response reaches it, because the connection was closed or one side is stuck. */
  function Converse(w: World, bytes: string, kind: MessageType, env: Env, limit: nat): (World, Option<Response>)
    requires limit >= 2
  {
    var served := Serve(w.parser, bytes, limit);
    var asked := w.(parser := served.parser);
    if |served.steps| != 1 then (asked, None)
    else if served.steps[0].Dispatched? && !Matching(served.steps[0].message, env) then (asked, None)
    else
      var (server, reply) := Respond(w.server, served.steps[0], env);
      match reply
      case Wrote(answer) => (
        match Receive(w.responses, kind, w.inbox + answer, limit)
        case Got(response, state, rest) =>
          (World(server, served.parser, rest, state, NoteResponse(w.user, response)), Some(response))
        case Lost => (asked.(server := server), None)
      )
      case _ => (asked.(server := server), None)
  }

  /** The user name is set when a LOGIN goes out. */
  function Asking(user: User, request: Message): User {
    if request.Login? then user.(username := request.username) else user
  }

  /** `transmitMessage` and `getResponse`. */
  function RoundTrip(w: World, request: Message, env: Env, limit: nat): (World, Option<Response>)
    requires limit >= 2
  {
    Converse(w.(user := Asking(w.user, request)), Deflate(request), request.Type(), env, limit)
  }

  /** Between two exchanges: both parsers idle, no byte left over. */
  predicate InStep(w: World) {
    Ready(w.parser) && Awaiting(w.responses) && w.inbox == ""
  }

  // ---------------------------------------------------------------- what a request is answered with

  function Status(ok: bool): Response {
    if ok then OkResponse else ErrResponse
  }

  /** The response a request should get, read off the mail directories and the login; None when the server closes
      the connection or its thread dies. */
  function Answer(s: ServerState, request: Message, env: Env): Option<Response>
    requires Matching(request, env)
  {
    if !request.Login? && !request.Quit? && !s.session.loggedIn then Some(ErrResponse)
    else
      match request
      case Send(m) => Some(Status(FM.PersistSpec(s.dirs, m.receivers, env.slots, FM.FileBytes(NormaliseSend(m))).1))
      case List(u) => (
        match FM.ListSpec(s.dirs, u)
        case Success(titles) => Some(ListResponse(titles))
        case FileError => Some(ListResponse([]))
        case _ => None
      )
      case Read(u, i) => (
        match FM.ReadSpec(s.dirs, u, i)
        case Success(m) => Some(ReadResponse(NormaliseSend(m)))
        case FileError => Some(ErrResponse)
        case _ => None
      )
      case Del(u, i) => Some(Status(FM.RemoveSpec(s.dirs, u, i).1))
      case Quit => None
      case Login(_, _) => (
        match GateOf(s.session, s.locked, env)
        case Admitted => Some(OkResponse)
        case Rejected => Some(ErrResponse)
        case LockedOut => None
      )
  }

  /** What becomes of a LOGIN. */
  datatype Gate = Admitted | Rejected | LockedOut

  function GateOf(session: Lockout.Session, locked: Lockout.Locked, env: Env): Gate {
    var (_, after, ok) := Lockout.LoginSpec(session, locked, env.verdict, env.now);
    if ok then Admitted
    else if session.ip in after then LockedOut
    else Rejected
  }

  /** The list is short enough for an int to count, with every title a wire line; the message that is asked for
      travels. Every other answer does. */
  predicate Travels(s: ServerState, request: Message, limit: nat)
    requires limit >= 2
  {
    s.session.loggedIn ==>
      match request
      case List(u) => FM.ListSpec(s.dirs, u).Success? ==> TitlesTravel(FM.ListSpec(s.dirs, u).value, limit)
      case Read(u, i) => FM.ReadSpec(s.dirs, u, i).Success? ==> MailTravels(FM.ReadSpec(s.dirs, u, i).value, limit)
      case _ => true
  }

  predicate TitlesTravel(titles: seq<string>, limit: nat) {
    |titles| <= INT_MAX && WireLines(titles, limit)
  }

  // ---------------------------------------------------------------- the way back

  lemma StillAwaiting(s: ResponseState)
    ensures Awaiting(s.(lines := [])) <==> Awaiting(s)
  {
  }

  /** ERR is an error response to every kind of request; after LIST it is a count that does not convert. */
  lemma ReceiveError(s: ResponseState, request: MessageType, limit: nat)
    requires limit >= 16 && Awaiting(s) && request != TInvalid
    ensures var r := Receive(s, request, ERR_REPLY, limit);
      r.Got? && r.response == ErrResponse && r.rest == "" && Awaiting(r.state)
  {
    hide Receive;
    assert ERR_REPLY + "" == ERR_REPLY;
    if request == TList {
      StatusLines(limit);
      assert !IsDigit("ERR"[0]);
      ReceiveAnswer(s, request, "ERR", "", ErrResponse, limit);
    } else {
      ReceiveStatus(s, request, false, "", limit);
    }
  }

  lemma StatusArrives(r: ResponseState, request: MessageType, ok: bool, limit: nat)
    requires limit >= 16 && Awaiting(r) && request != TInvalid && (ok ==> request != TRead && request != TList)
    ensures Arrives(r, request, if ok then OK_REPLY else ERR_REPLY, Status(ok), limit)
  {
    hide Receive;
    if ok {
      assert OK_REPLY + "" == OK_REPLY;
      ReceiveStatus(r, request, true, "", limit);
      StillAwaiting(r);
    } else {
      ReceiveError(r, request, limit);
    }
  }

  lemma ListArrives(r: ResponseState, titles: seq<string>, limit: nat)
    requires limit >= 16 && Awaiting(r) && AllOneLine(titles)
    ensures Arrives(r, TList, ListText(titles), ListResponse(titles), limit) <==> TitlesTravel(titles, limit)
  {
    hide Receive, PrintInt, JoinLines, WireLines;
    ReceiveTitlesIff(r, titles, limit);
  }

  lemma MailArrives(r: ResponseState, m: SendMessage, limit: nat)
    requires limit >= 16 && Awaiting(r)
    ensures Arrives(r, TRead, OK_REPLY + DeflateSend(m), ReadResponse(NormaliseSend(m)), limit)
       <==> MailTravels(m, limit)
  {
    hide Arrives, DeflateSend, NormaliseSend, MailTravels, Whole;
    MailTravelsIff(m, limit);
    ReadArrivesIff(r, m, limit);
  }

  lemma ListReplyIff(r: ResponseState, dirs: map<string, FM.Directory>, username: string, limit: nat)
    requires limit >= 16 && Awaiting(r) && HandleList(dirs, username).Wrote?
    ensures var list := FM.ListSpec(dirs, username);
      Arrives(r, TList, HandleList(dirs, username).bytes, ListResponse(if list.Success? then list.value else []), limit)
      <==> (list.Success? ==> TitlesTravel(list.value, limit))
  {
    hide FM.ListSpec, Arrives, ListText;
    match FM.ListSpec(dirs, username) {
      case Success(titles) =>
        ListedTitlesOneLine(dirs, username);
        ListArrives(r, titles, limit);
      case _ =>
        ListArrives(r, [], limit);
    }
  }

  /** The server's reply reaches the client as the answer, in step, exactly when the answer travels. */
  lemma ReplyReceivedIff(r: ResponseState, s: ServerState, request: Message, env: Env, limit: nat)
    requires limit >= 16 && Awaiting(r) && Matching(request, env)
    ensures Matching(Normalise(request), env)
    ensures var reply := Handle(s, Normalise(request), env).1;
      match Answer(s, request, env)
      case None => !reply.Wrote?
      case Some(response) =>
        reply.Wrote? && (Arrives(r, request.Type(), reply.bytes, response, limit) <==> Travels(s, request, limit))
  {
    hide Arrives, FM.ListSpec, FM.ReadSpec, FM.PersistSpec, FM.RemoveSpec, FM.FileBytes, Awaiting,
      NormaliseAttachments, ListText, DeflateSend, TitlesTravel, MailTravels;
    if !request.Login? && !request.Quit? && !s.session.loggedIn {
      StatusArrives(r, request.Type(), false, limit);
    } else {
      match request {
        case Send(m) =>
          StatusArrives(r, TSend, FM.PersistSpec(s.dirs, m.receivers, env.slots, FM.FileBytes(NormaliseSend(m))).1,
                        limit);
        case List(u) =>
          if HandleList(s.dirs, u).Wrote? {
            ListReplyIff(r, s.dirs, u, limit);
          }
        case Read(u, i) =>
          if FM.ReadSpec(s.dirs, u, i).Success? {
            MailArrives(r, FM.ReadSpec(s.dirs, u, i).value, limit);
          }
          StatusArrives(r, TRead, false, limit);
        case Del(u, i) =>
          StatusArrives(r, TDel, FM.RemoveSpec(s.dirs, u, i).1, limit);
        case Quit =>
        case Login(_, _) =>
          StatusArrives(r, TLogin, true, limit);
          StatusArrives(r, TLogin, false, limit);
      }
    }
  }

  // ---------------------------------------------------------------- one exchange

  /** The server's parser over the bytes of one request. */
  lemma RequestAlone(p: ParserState, m: Message, limit: nat)
    requires limit >= 16 && Ready(p) && WireMessage(m, limit)
    ensures var served := Serve(p, Deflate(m), limit);
      served.steps == [Dispatched(Normalise(m))] && served.stop == Closed && Ready(served.parser)
  {
    hide Deflate, Digest;
    RequestDelivered(p, m, "", limit);
    assert Deflate(m) + "" == Deflate(m);
    var q := Requested(p, m, limit).(chunks := []);
    assert Serve(q, "", limit) == Served([], q, Closed);
  }

  /** Lock-step exchange, whatever the mail directories hold: the handlers' effect is the server's whole new
      state, and the client gets the answer, with no byte left over and both parsers idle again, exactly when the
      answer travels. Without an answer, because the server closes the connection or dies, there is no response. */
  lemma ExchangeLockStep(w: World, request: Message, env: Env, limit: nat)
    requires limit >= 16 && InStep(w) && WireMessage(request, limit) && Matching(request, env)
    ensures Matching(Normalise(request), env)
    ensures var (v, response) := RoundTrip(w, request, env, limit);
      var asking := Asking(w.user, request);
      && v.server == Handle(w.server, Normalise(request), env).0
      && v.user == (if response.Some? then NoteResponse(asking, response.value) else asking)
      && (match Answer(w.server, request, env)
          case None => response == None
          case Some(answer) => response == Some(answer) && InStep(v) <==> Travels(w.server, request, limit))
  {
    hide Serve, Receive, Deflate, Handle, Answer, WireMessage, Normalise, Awaiting, Ready, NoteResponse, Travels;
    RequestAlone(w.parser, request, limit);
    ReplyReceivedIff(w.responses, w.server, request, env, limit);
    if Answer(w.server, request, env).Some? {
      var bytes := Handle(w.server, Normalise(request), env).1.bytes;
      assert w.inbox + bytes == bytes;
    }
  }

  /** A lockout is one of the cases without a response: the server has closed the connection. */
  lemma LockedOutClosed(w: World, request: Message, env: Env, limit: nat)
    requires limit >= 16 && InStep(w) && WireMessage(request, limit)
    requires request.Login? && GateOf(w.server.session, w.server.locked, env).LockedOut?
    ensures RoundTrip(w, request, env, limit).1 == None
    ensures RoundTrip(w, request, env, limit).0.server.dirs == w.server.dirs
  {
    hide RoundTrip, WireMessage, InStep;
    ExchangeLockStep(w, request, env, limit);
  }

  /** READ or DEL with any line that is no number in place of the index: whatever the login, the server answers ERR,
      changes nothing, and the client reads that as an error. */
  lemma BadIndexAnswered(w: World, t: MessageType, username: string, number: string, env: Env, limit: nat)
    requires limit >= 16 && InStep(w) && (t == TRead || t == TDel)
    requires WireLine(username, limit) && WireLine(number, limit) && ParseInt32(number).None?
    ensures var (v, response) := Converse(w, JoinLines([Keyword(t), username, number]), t, env, limit);
      response == Some(ErrResponse) && v.server == w.server && v.inbox == "" && Awaiting(v.responses)
  {
    hide Receive, Serve, JoinLines, ParseInt, Awaiting, Keyword;
    var bytes := JoinLines([Keyword(t), username, number]);
    BadIndexRefused(w.parser, t, username, number, limit);
    StatusArrives(w.responses, t, false, limit);
    assert w.inbox + ERR_REPLY == ERR_REPLY;
  }

  lemma BadIndexRefused(p: ParserState, t: MessageType, username: string, number: string, limit: nat)
    requires limit >= 16 && Ready(p) && (t == TRead || t == TDel)
    requires WireLine(username, limit) && WireLine(number, limit) && ParseInt32(number).None?
    ensures Serve(p, JoinLines([Keyword(t), username, number]), limit).steps == [Refused]
  {
    hide Serve, NewInstance, ParseInt, Hopeless, JoinLines, Completes;
    var chunks := [Keyword(t), username, number];
    var r := ParserState(NewRequest, t, 0, 0, chunks);
    IndexCompletes(p, t, username, number, "", limit);
    assert JoinLines(chunks) + "" == JoinLines(chunks);
    ServeCompletes(p, JoinLines(chunks), r, "", limit);
    WireOneLine(username, limit);
    WireOneLine(number, limit);
    HopelessIndex(t, username, number);
    HopelessFinish(r, chunks);
    NothingServed(r, limit);
  }

  // ---------------------------------------------------------------- the client's mirror of the login

  predicate Mirrors(w: World) {
    w.user.loggedIn == w.server.session.loggedIn
  }

  /** The menus: LOGIN and QUIT while logged out, everything but LOGIN while logged in. */
  predicate MenuAllows(user: User, request: Message) {
    if user.loggedIn then !request.Login? else request.Login? || request.Quit?
  }

  /** After an exchange the menus allow, whatever its answer and whether or not it travels, both ends agree about the
      login exactly when the user name of a successful LOGIN was not empty. */
  lemma MirrorIff(w: World, request: Message, env: Env, limit: nat)
    requires limit >= 16 && InStep(w) && WireMessage(request, limit) && Matching(request, env)
    requires Mirrors(w) && MenuAllows(w.user, request)
    ensures Mirrors(RoundTrip(w, request, env, limit).0)
       <==> (request.Login? && GateOf(w.server.session, w.server.locked, env).Admitted? ==> request.username != "")
  {
    hide RoundTrip, WireMessage, InStep, FM.ListSpec, FM.ReadSpec, FM.PersistSpec, FM.RemoveSpec, MailTravels,
      TitlesTravel, HandleList, HandleRead, FM.FileBytes;
    ExchangeLockStep(w, request, env, limit);
  }

  /** What a LOGIN does to the client: it goes on under that name when the server lets it in, and under none when it is
      refused; when the connection is closed instead, the name stays that of the attempt. */
  lemma LoginNames(w: World, name: string, password: string, env: Env, limit: nat)
    requires limit >= 16 && InStep(w) && WireMessage(Login(name, password), limit)
    requires name != "" && !w.user.loggedIn
    ensures RoundTrip(w, Login(name, password), env, limit).0.user
         == match GateOf(w.server.session, w.server.locked, env)
            case Admitted => User(name, true)
            case Rejected => User("", false)
            case LockedOut => User(name, false)
  {
    hide RoundTrip, WireMessage, InStep;
    ExchangeLockStep(w, Login(name, password), env, limit);
  }

  /** No other request, and no response to it, changes a client that is logged in. */
  lemma UserKept(w: World, request: Message, env: Env, limit: nat)
    requires limit >= 16 && InStep(w) && WireMessage(request, limit) && Matching(request, env)
    requires w.user.loggedIn && !request.Login?
    ensures RoundTrip(w, request, env, limit).0.user == w.user
  {
    hide RoundTrip, WireMessage, InStep, Answer, Handle;
    ExchangeLockStep(w, request, env, limit);
  }

  // ---------------------------------------------------------------- failed logins, by number

  /** A failed LOGIN on an address that is not locked. With fewer than two failures in a row before it the answer is ERR
      and no lock changes; from the third on the address is locked and the connection closed. A wrong password ends an
      earlier login, an unknown user name does not. */
  lemma FailedLogin(w: World, name: string, password: string, env: Env, limit: nat)
    requires limit >= 16 && InStep(w) && WireMessage(Login(name, password), limit)
    requires w.server.session.ip !in w.server.locked && (env.verdict.NoSuchUser? || env.verdict.WrongPassword?)
    ensures var (v, response) := RoundTrip(w, Login(name, password), env, limit);
      var s := w.server;
      && v.server.dirs == s.dirs
      && v.server.session == Lockout.Session(s.session.ip, s.session.attempts + 1,
                                             s.session.loggedIn && env.verdict.NoSuchUser?)
      && (if s.session.attempts < 2
          then response == Some(ErrResponse) && v.server.locked == s.locked && InStep(v)
          else response == None && v.server.locked == s.locked[s.session.ip := env.now])
  {
    hide RoundTrip, WireMessage, InStep;
    ExchangeLockStep(w, Login(name, password), env, limit);
  }

  /** The other outcomes of a LOGIN: let in with a fresh count, turned away without any change while the directory
      server cannot be reached, and shown the door, again without any change, while the address is locked. */
  lemma OtherLogin(w: World, name: string, password: string, env: Env, limit: nat)
    requires limit >= 16 && InStep(w) && WireMessage(Login(name, password), limit)
    ensures var (v, response) := RoundTrip(w, Login(name, password), env, limit);
      var s := w.server;
      && (s.session.ip in s.locked ==> v.server == s && response == None)
      && (s.session.ip !in s.locked && env.verdict.Unreachable? ==> v.server == s && response == Some(ErrResponse))
      && (s.session.ip !in s.locked && env.verdict.Accepted? ==>
            v.server == s.(session := Lockout.Session(s.session.ip, 0, true)) && response == Some(OkResponse))
  {
    hide RoundTrip, WireMessage, InStep;
    ExchangeLockStep(w, Login(name, password), env, limit);
  }

  /** Three wrong passwords or user names in a row from a new connection: ERR, ERR, and then the door. */
  lemma ThreeStrikes(w: World, a: Message, b: Message, c: Message, e: Env, f: Env, g: Env, limit: nat)
    requires limit >= 16 && InStep(w) && w.server.session.attempts == 0 && w.server.session.ip !in w.server.locked
    requires a.Login? && b.Login? && c.Login?
    requires WireMessage(a, limit) && WireMessage(b, limit) && WireMessage(c, limit)
    requires forall x :: x in [e, f, g] ==> x.verdict == Lockout.NoSuchUser || x.verdict == Lockout.WrongPassword
    ensures var (u, first) := RoundTrip(w, a, e, limit);
      var (v, second) := RoundTrip(u, b, f, limit);
      var (x, third) := RoundTrip(v, c, g, limit);
      && first == Some(ErrResponse) && second == Some(ErrResponse) && third == None
      && v.server.locked == w.server.locked
      && x.server.locked == w.server.locked[w.server.session.ip := g.now]
  {
    hide RoundTrip, WireMessage, InStep;
    assert [e, f, g][0] == e && [e, f, g][1] == f && [e, f, g][2] == g;
    FailedLogin(w, a.username, a.password, e, limit);
    var u := RoundTrip(w, a, e, limit).0;
    FailedLogin(u, b.username, b.password, f, limit);
    FailedLogin(RoundTrip(u, b, f, limit).0, c.username, c.password, g, limit);
  }

  /** After a wrong password, whatever the connection sends and whatever others do in between, every request is refused
      and changes no mailbox until a LOGIN is accepted. */
  lemma LoggedOutAfterWrongPassword(
      w: World, name: string, password: string, env: Env, arrivals: seq<Incoming>, limit: nat)
    requires limit >= 16 && InStep(w) && WireMessage(Login(name, password), limit)
    requires w.server.session.ip !in w.server.locked && env.verdict.WrongPassword?
    requires AllMatching(arrivals)
    requires forall k :: 0 <= k < |arrivals| ==> !AcceptedLogin(w.server.session.ip, arrivals[k])
    ensures var session := RoundTrip(w, Login(name, password), env, limit).0.server.session;
      !session.loggedIn && AllDenied(session, arrivals)
  {
    hide RoundTrip, WireMessage, InStep, AllDenied, AcceptedLogin, AllMatching;
    var session := RoundTrip(w, Login(name, password), env, limit).0.server.session;
    assert session.ip == w.server.session.ip && !session.loggedIn by {
      FailedLogin(w, name, password, env, limit);
    }
    LoginGate(session, arrivals);
  }

  /** The exception: a successful LOGIN with an empty user name leaves the client logged out. */
  lemma EmptyUserNameExample(w: World, env: Env)
    requires InStep(w) && !w.user.loggedIn && !w.server.session.loggedIn
    requires GateOf(w.server.session, w.server.locked, env).Admitted?
    ensures WireMessage(Login("", "secret"), DEFAULT_BUFFER_SIZE)
    ensures var (v, response) := RoundTrip(w, Login("", "secret"), env, DEFAULT_BUFFER_SIZE);
      response == Some(OkResponse) && v.server.session.loggedIn && !v.user.loggedIn
  {
    hide RoundTrip, InStep, WireMessage;
    var request := Login("", "secret");
    assert WireMessage(request, DEFAULT_BUFFER_SIZE) by { EmptyNameTravels(); }
    ExchangeLockStep(w, request, env, DEFAULT_BUFFER_SIZE);
  }

  lemma EmptyNameTravels()
    ensures WireMessage(Login("", "secret"), DEFAULT_BUFFER_SIZE)
  {
  }

  // ---------------------------------------------------------------- the abstract account

  /** What a user of the system may expect of plain boxes: the boxes after the request, and the response, if the
      connection stays open. */
  function Expected(boxes: Boxes, loggedIn: bool, gate: Gate, request: Message): (Boxes, Option<Response>) {
    if request.Quit? then (boxes, None)
    else if request.Login? then
      (boxes,
       match gate
       case Admitted => Some(OkResponse)
       case Rejected => Some(ErrResponse)
       case LockedOut => None)
    else if !loggedIn then (boxes, Some(ErrResponse))
    else
      match request
      case Send(m) => (AppendAll(boxes, m.receivers, NormaliseSend(m)), Some(OkResponse))
      case List(u) => (boxes, Some(ListResponse(Titles(BoxOf(boxes, u)))))
      case Read(u, i) =>
        (boxes, Some(if 0 <= i < |BoxOf(boxes, u)| then ReadResponse(NormaliseSend(boxes[u][i])) else ErrResponse))
      case Del(u, i) =>
        if 0 <= i < |BoxOf(boxes, u)|
        then (boxes[u := boxes[u][..i] + boxes[u][i + 1..]], Some(OkResponse))
        else (boxes, Some(ErrResponse))
  }

  /** The session and the locks after a request: only a LOGIN touches them. */
  function LoginAfter(session: Lockout.Session, locked: Lockout.Locked, request: Message, env: Env)
    : (Lockout.Session, Lockout.Locked)
  {
    if request.Login? then
      var (next, after, _) := Lockout.LoginSpec(session, locked, env.verdict, env.now);
      (next, after)
    else (session, locked)
  }

  /** The part of a box that is asked for travels. */
  predicate BoxTravels(boxes: Boxes, request: Message, limit: nat)
    requires limit >= 2
  {
    match request
    case List(u) => TitlesTravel(Titles(BoxOf(boxes, u)), limit)
    case Read(u, i) => 0 <= i < |BoxOf(boxes, u)| ==> MailTravels(boxes[u][i], limit)
    case _ => true
  }

  /** What the surroundings must grant a user who is logged in: new files listed last, and an answer that travels. */
  ghost predicate Granted(s: ServerState, request: Message, env: Env, limit: nat)
    requires limit >= 2
  {
    && Matching(request, env)
    && (s.session.loggedIn ==>
          && BoxTravels(BoxesOf(s.dirs), request, limit)
          && (request.Send? ==>
                AllListedLast(s.dirs, request.mail.receivers, env.slots, FM.FileBytes(NormaliseSend(request.mail)))))
  }

  lemma NotPersist(dirs: map<string, FM.Directory>, op: FileOp)
    requires !op.Persist?
    ensures ValidOp(dirs, op)
  {
  }

  lemma BoxKeys(dirs: map<string, FM.Directory>, u: string)
    ensures u in BoxesOf(dirs) <==> u in dirs
  {
  }

  /** On sane directories the answer and the new state are what is expected of the boxes and the login. */
  lemma AnswerExpected(s: ServerState, request: Message, env: Env, limit: nat)
    requires limit >= 16 && Sane(s.dirs) && WireMessage(request, limit) && Granted(s, request, env, limit)
    ensures Matching(Normalise(request), env) && Travels(s, request, limit)
    ensures var t := Handle(s, Normalise(request), env).0;
      && Sane(t.dirs)
      && (BoxesOf(t.dirs), Answer(s, request, env))
         == Expected(BoxesOf(s.dirs), s.session.loggedIn, GateOf(s.session, s.locked, env), request)
      && (t.session, t.locked) == LoginAfter(s.session, s.locked, request, env)
  {
    hide Sane, BoxesOf, NormaliseAttachments, FM.PersistSpec, FM.RemoveSpec, FM.ListSpec, FM.ReadSpec,
      FM.FileBytes, AllListedLast, Storable, ValidOp, WireSend, AllKeepLength, TitlesTravel, MailTravels, HandleList,
      HandleRead;
    if !request.Login? && s.session.loggedIn {
      match request {
        case Send(m) =>
          NormaliseSettles(m, limit);
          SettledStorable(NormaliseSend(m), limit);
          PersistRefines(s.dirs, NormaliseSend(m).receivers, env.slots, NormaliseSend(m));
        case List(u) =>
          StepRefines(s.dirs, GetList(u)) by { NotPersist(s.dirs, GetList(u)); }
          BoxKeys(s.dirs, u);
        case Read(u, i) =>
          StepRefines(s.dirs, GetMessage(u, i)) by { NotPersist(s.dirs, GetMessage(u, i)); }
        case Del(u, i) =>
          RemoveRefines(s.dirs, u, i);
        case _ =>
      }
    }
  }

  /** One exchange on the abstract account: the boxes, the session, the locks and the response are the expected
      ones, and an open connection is in step again. */
  lemma ExchangeRefines(w: World, request: Message, env: Env, limit: nat)
    requires limit >= 16 && InStep(w) && Sane(w.server.dirs)
    requires WireMessage(request, limit) && Granted(w.server, request, env, limit)
    ensures var s := w.server;
      var (v, response) := RoundTrip(w, request, env, limit);
      && Sane(v.server.dirs)
      && (BoxesOf(v.server.dirs), response)
         == Expected(BoxesOf(s.dirs), s.session.loggedIn, GateOf(s.session, s.locked, env), request)
      && (v.server.session, v.server.locked) == LoginAfter(s.session, s.locked, request, env)
      && (response.Some? ==> InStep(v))
  {
    hide RoundTrip, Expected, WireMessage, InStep, Sane, BoxesOf, Travels, Answer, Handle, AllListedLast, BoxTravels,
      LoginAfter, GateOf;
    AnswerExpected(w.server, request, env, limit);
    ExchangeLockStep(w, request, env, limit);
  }

  // ---------------------------------------------------------------- settled messages

  /** A stored message that a further trip over the wire does not change. */
  predicate Settled(m: SendMessage, limit: nat) {
    WireMessage(Send(m), limit) && NormaliseSend(m) == m
  }

  predicate SettledBox(box: seq<SendMessage>, limit: nat) {
    forall i :: 0 <= i < |box| ==> Settled(box[i], limit)
  }

  predicate SettledBoxes(boxes: Boxes, limit: nat) {
    forall u :: u in boxes ==> SettledBox(boxes[u], limit)
  }

  lemma NormaliseSettles(m: SendMessage, limit: nat)
    requires limit >= 16 && WireMessage(Send(m), limit)
    ensures Settled(NormaliseSend(m), limit)
  {
    hide BodyText, WireLine, NoEarlyDot;
    var n := NormaliseSend(m);
    forall i | 0 <= i < |n.attachments|
      ensures WireAttachment(n.attachments[i], limit) && KeepsLength(n.attachments[i])
      ensures NormaliseAttachment(n.attachments[i]) == n.attachments[i]
    {
      assert WireAttachment(m.attachments[i], limit) && KeepsLength(m.attachments[i]);
      var d := n.attachments[i].data;
      assert d[..|d| - 1] == m.attachments[i].data[..|d| - 1];
    }
    assert NormaliseAttachments(n.attachments) == n.attachments;
  }

  lemma SettledStorable(m: SendMessage, limit: nat)
    requires limit >= 16 && Settled(m, limit)
    ensures Storable(m)
  {
    hide BodyText, NoEarlyDot, NormaliseSend;
    WireSendLines(m, limit);
    forall i | 0 <= i < |m.attachments| ensures StorableAttachment(m.attachments[i]) {
      assert WireAttachment(m.attachments[i], limit);
    }
  }

  lemma {:induction false} AppendAllSettled(boxes: Boxes, receivers: seq<string>, m: SendMessage, limit: nat)
    requires SettledBoxes(boxes, limit) && Settled(m, limit)
    ensures SettledBoxes(AppendAll(boxes, receivers, m), limit)
    decreases |receivers|
  {
    hide Settled;
    if receivers != [] {
      var box := BoxOf(boxes, receivers[0]);
      assert SettledBox(box + [m], limit);
      AppendAllSettled(boxes[receivers[0] := box + [m]], receivers[1..], m, limit);
    }
  }

  lemma ExpectedSettled(boxes: Boxes, loggedIn: bool, gate: Gate, request: Message, limit: nat)
    requires limit >= 16 && SettledBoxes(boxes, limit) && WireMessage(request, limit)
    ensures SettledBoxes(Expected(boxes, loggedIn, gate, request).0, limit)
  {
    hide Settled, WireMessage, NormaliseSend;
    if request.Send? {
      NormaliseSettles(request.mail, limit);
      AppendAllSettled(boxes, request.mail.receivers, NormaliseSend(request.mail), limit);
    } else if request.Del? && 0 <= request.number < |BoxOf(boxes, request.username)| {
      var box := boxes[request.username];
      assert SettledBox(box, limit);
      assert SettledBox(box[..request.number] + box[request.number + 1..], limit);
    }
  }

  lemma SettledTitle(m: SendMessage, limit: nat)
    requires Settled(m, limit)
    ensures WireLine(m.title, limit)
  {
  }

  /** From settled boxes everything travels but a list too long for an int, and READ gives the stored message
      itself. */
  lemma SettledTravels(boxes: Boxes, request: Message, limit: nat)
    requires limit >= 16 && SettledBoxes(boxes, limit)
    requires request.List? ==> |BoxOf(boxes, request.username)| <= INT_MAX
    ensures BoxTravels(boxes, request, limit)
    ensures request.Read? && 0 <= request.number < |BoxOf(boxes, request.username)| ==>
              NormaliseSend(boxes[request.username][request.number]) == boxes[request.username][request.number]
  {
    hide NormaliseSend, WireLine, WireSend, AllKeepLength, MailTravels;
    match request {
      case List(u) =>
        var box := BoxOf(boxes, u);
        assert SettledBox(box, limit);
        forall i | 0 <= i < |box| ensures WireLine(Titles(box)[i], limit) {
          SettledTitle(box[i], limit);
        }
      case Read(u, i) =>
        if 0 <= i < |BoxOf(boxes, u)| {
          assert SettledBox(boxes[u], limit);
          assert WireMessage(Send(boxes[u][i]), limit);
          MailTravelsIff(boxes[u][i], limit);
        }
      case _ =>
    }
  }
}
