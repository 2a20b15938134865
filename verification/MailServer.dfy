/** One connection's server side: the login gate, the handlers and their replies. */
module MailServer {
  import opened Text
  import opened Messages
  import opened MessageParsing
  import FM = FileManager
  import opened Lockout

  /** What a request makes the server do to the socket. `Dead`: an exception no handler catches, or an endless
      loop. */
  datatype Reply = Wrote(bytes: string) | ClosedSocket | Dead

  /** Everything the surroundings decide for one request: names, times and places of new files, the answer of
      the directory server, the time. */
  datatype Env = Env(slots: seq<FM.Slot>, verdict: Verdict, now: int)

  datatype ServerState = ServerState(dirs: map<string, FM.Directory>, session: Session, locked: Locked)

  const OK_REPLY := "OK" + "\n"
  const ERR_REPLY := "ERR" + "\n"

  function ListText(titles: seq<string>): string {
    JoinLines([PrintInt(|titles|)] + titles)
  }

  function HandleList(dirs: map<string, FM.Directory>, username: string): Reply {
    match FM.ListSpec(dirs, username)
    case Success(titles) => Wrote(ListText(titles))
    case FileError => Wrote(ListText([]))
    case _ => Dead
  }

  function HandleRead(dirs: map<string, FM.Directory>, username: string, index: int): Reply {
    match FM.ReadSpec(dirs, username, index)
    case Success(m) => Wrote(OK_REPLY + DeflateSend(m))
    case FileError => Wrote(ERR_REPLY)
    case _ => Dead
  }

  predicate Matching(m: Message, env: Env) {
    m.Send? ==> |env.slots| == |m.mail.receivers|
  }

  /** `messageReceived` with its handlers. */
  function Handle(s: ServerState, m: Message, env: Env): (ServerState, Reply)
    requires Matching(m, env)
  {
    if !m.Login? && !m.Quit? && !s.session.loggedIn then (s, Wrote(ERR_REPLY))
    else
      match m
      case Send(mail) =>
        var (dirs, ok) := FM.PersistSpec(s.dirs, mail.receivers, env.slots, FM.FileBytes(mail));
        (s.(dirs := dirs), Wrote(if ok then OK_REPLY else ERR_REPLY))
      case List(username) => (s, HandleList(s.dirs, username))
      case Read(username, index) => (s, HandleRead(s.dirs, username, index))
      case Del(username, index) =>
        var (dirs, ok) := FM.RemoveSpec(s.dirs, username, index);
        (s.(dirs := dirs), Wrote(if ok then OK_REPLY else ERR_REPLY))
      case Quit => (s, ClosedSocket)
      case Login(_, _) =>
        var (session, locked, ok) := LoginSpec(s.session, s.locked, env.verdict, env.now);
        (ServerState(s.dirs, session, locked),
         if ok then Wrote(OK_REPLY) else if session.ip in locked then ClosedSocket else Wrote(ERR_REPLY))
  }

  class MailServer {
    const files: FM.ThreadedFileManager
    const client: ClientInfo
    const login: LoginManager

    constructor (files: FM.ThreadedFileManager, client: ClientInfo)
      ensures this.files == files && this.client == client && fresh(login) && !login.isLoggedIn
    {
      this.files, this.client := files, client;
      login := new LoginManager();
    }

    function View(): ServerState
      reads this, files, client, client.manager, login
    {
      ServerState(files.dirs, Session(client.ip, client.attemptCount, login.isLoggedIn), client.manager.lockedClients)
    }

    method ReplyToList(username: string) returns (reply: Reply)
      ensures reply == HandleList(files.dirs, username)
    {
      var r := files.GetMessageList(username);
      var list: seq<string> := [];
      match r {
        case Success(titles) => list := titles;
        case FileError =>
        case _ => return Dead;
      }
      hide PrintInt, JoinLines;
      var text := PrintInt(|list|) + "\n";
      JoinLinesOne(PrintInt(|list|));
      for i := 0 to |list|
        invariant text == JoinLines([PrintInt(|list|)] + list[..i])
      {
        JoinLinesSnoc([PrintInt(|list|)] + list[..i], list[i]);
        assert [PrintInt(|list|)] + list[..i + 1] == [PrintInt(|list|)] + list[..i] + [list[i]];
        text := text + list[i] + "\n";
      }
      assert list[..|list|] == list;
      return Wrote(text);
    }

    method ReplyToRead(username: string, index: int) returns (reply: Reply)
      ensures reply == HandleRead(files.dirs, username, index)
    {
      var r := files.GetMessageForRead(username, index);
      match r {
        case Success(m) =>
          var text := PrintSend(m);
          return Wrote(OK_REPLY + text);
        case FileError => return Wrote(ERR_REPLY);
        case _ => return Dead;
      }
    }

    method MessageReceived(m: Message, env: Env) returns (reply: Reply)
      requires Matching(m, env)
      modifies files, login, client`attemptCount, client.manager`lockedClients
      ensures (View(), reply) == Handle(old(View()), m, env)
    {
      hide FM.PersistSpec, FM.RemoveSpec, HandleList, HandleRead, FM.FileBytes;
      if !m.Login? && !m.Quit? && !login.isLoggedIn {
        return Wrote(ERR_REPLY);
      }
      match m {
        case Send(mail) =>
          var ok := files.PersistSendMessage(mail, env.slots);
          reply := Wrote(if ok then OK_REPLY else ERR_REPLY);
        case List(username) => reply := ReplyToList(username);
        case Read(username, index) => reply := ReplyToRead(username, index);
        case Del(username, index) =>
          var ok := files.RemoveFile(username, index);
          reply := Wrote(if ok then OK_REPLY else ERR_REPLY);
        case Quit => reply := ClosedSocket;
        case Login(_, _) =>
          var ok := login.SendLDAPRequest(client, env.verdict, env.now);
          if ok {
            reply := Wrote(OK_REPLY);
          } else {
            var locked := client.manager.IsLocked(client.ip);
            reply := if locked then ClosedSocket else Wrote(ERR_REPLY);
          }
      }
    }
  }

  // ---------------------------------------------------------------- the login gate over whole connections

  /** One step of the parser as the server answers it: `clientReceivedData`. */
  function Respond(s: ServerState, step: Step, env: Env): (ServerState, Reply)
    requires step.Dispatched? ==> Matching(step.message, env)
  {
    match step
    case Dispatched(m) => Handle(s, m, env)
    case _ => (s, Wrote(ERR_REPLY))
  }

  /** A request together with the mail directories and the locked addresses it finds. Other connections may
      have changed both since this connection's last request. */
  datatype Incoming = Incoming(step: Step, env: Env, dirs: map<string, FM.Directory>, locked: Locked)

  /** What one request did: the reply, and the mail directories it left. */
  datatype Effect = Effect(reply: Reply, dirs: map<string, FM.Directory>)

  predicate AllMatching(arrivals: seq<Incoming>) {
    forall i :: 0 <= i < |arrivals| && arrivals[i].step.Dispatched? ==>
      Matching(arrivals[i].step.message, arrivals[i].env)
  }

  /** A connection's requests in order, among those of others; nothing is answered after the socket was closed or
      the thread died. */
  function RespondAll(session: Session, arrivals: seq<Incoming>): (Session, seq<Effect>)
    requires AllMatching(arrivals)
    decreases |arrivals|
  {
    if arrivals == [] then (session, [])
    else
      var a := arrivals[0];
      var (t, reply) := Respond(ServerState(a.dirs, session, a.locked), a.step, a.env);
      if !reply.Wrote? then (t.session, [Effect(reply, t.dirs)])
      else
        var (last, effects) := RespondAll(t.session, arrivals[1..]);
        (last, [Effect(reply, t.dirs)] + effects)
  }

  /** A LOGIN that the directory server accepts while the address is not locked. */
  predicate AcceptedLogin(ip: string, a: Incoming) {
    a.step.Dispatched? && a.step.message.Login? && a.env.verdict.Accepted? && ip !in a.locked
  }

  /** A reply that reveals and changes nothing. */
  predicate Denied(r: Reply) {
    r == Wrote(ERR_REPLY) || r == ClosedSocket
  }

  lemma OneDenied(session: Session, a: Incoming)
    requires a.step.Dispatched? ==> Matching(a.step.message, a.env)
    requires !session.loggedIn
    ensures var (t, reply) := Respond(ServerState(a.dirs, session, a.locked), a.step, a.env);
      && t.session.ip == session.ip && t.dirs == a.dirs
      && (t.session.loggedIn <==> AcceptedLogin(session.ip, a))
      && (Denied(reply) <==> !AcceptedLogin(session.ip, a))
      && (AcceptedLogin(session.ip, a) ==> reply == Wrote(OK_REPLY))
  {
    hide FM.PersistSpec, FM.RemoveSpec, HandleList, HandleRead;
    assert OK_REPLY[0] != ERR_REPLY[0];
  }

  /** Every one of these requests is refused, changes no mailbox, and leaves the connection logged out. */
  predicate AllDenied(session: Session, arrivals: seq<Incoming>)
    requires AllMatching(arrivals)
  {
    var (last, effects) := RespondAll(session, arrivals);
    && !last.loggedIn && |effects| <= |arrivals|
    && forall i :: 0 <= i < |effects| ==> Denied(effects[i].reply) && effects[i].dirs == arrivals[i].dirs
  }

  /** The login gate: on a connection that starts logged out, some reply is more than a refusal, or a request of
      this connection changes the mail directories at all, only after a LOGIN that was accepted while the address
      was not locked; whatever other connections do in between. */
  lemma {:induction false} LoginGate(session: Session, arrivals: seq<Incoming>)
    requires AllMatching(arrivals) && !session.loggedIn
    requires forall k :: 0 <= k < |arrivals| ==> !AcceptedLogin(session.ip, arrivals[k])
    ensures AllDenied(session, arrivals)
    decreases |arrivals|
  {
    hide Respond, Denied, AcceptedLogin;
    if arrivals != [] {
      var a := arrivals[0];
      var (t, reply) := Respond(ServerState(a.dirs, session, a.locked), a.step, a.env);
      OneDenied(session, a);
      if reply.Wrote? {
        LoginGate(t.session, arrivals[1..]);
      }
    }
  }

  /** And the first such LOGIN, if the connection gets that far, is answered OK. */
  lemma {:induction false} FirstLoginAnswered(session: Session, arrivals: seq<Incoming>, k: nat)
    requires AllMatching(arrivals) && !session.loggedIn && k < |arrivals|
    requires AcceptedLogin(session.ip, arrivals[k])
    requires forall j :: 0 <= j < k ==> !AcceptedLogin(session.ip, arrivals[j])
    ensures var (_, effects) := RespondAll(session, arrivals);
      k < |effects| ==> effects[k].reply == Wrote(OK_REPLY)
    decreases |arrivals|
  {
    hide Respond, Denied, AcceptedLogin, OK_REPLY;
    var a := arrivals[0];
    var (t, reply) := Respond(ServerState(a.dirs, session, a.locked), a.step, a.env);
    OneDenied(session, a);
    if k > 0 && reply.Wrote? {
      FirstLoginAnswered(t.session, arrivals[1..], k - 1);
    }
  }

  /** A request that does not convert is answered ERR and changes nothing, logged in or not. */
  lemma {:induction false} RefusedAnswered(session: Session, arrivals: seq<Incoming>, i: nat)
    requires AllMatching(arrivals)
    requires var (_, effects) := RespondAll(session, arrivals); i < |effects|
    ensures |RespondAll(session, arrivals).1| <= |arrivals|
    ensures arrivals[i].step == Refused ==>
              RespondAll(session, arrivals).1[i] == Effect(Wrote("ERR" + "\n"), arrivals[i].dirs)
    decreases |arrivals|
  {
    hide Handle;
    if arrivals != [] {
      var a := arrivals[0];
      var (t, reply) := Respond(ServerState(a.dirs, session, a.locked), a.step, a.env);
      EffectsBounded(session, arrivals);
      if i > 0 && reply.Wrote? {
        RefusedAnswered(t.session, arrivals[1..], i - 1);
      }
    }
  }

  lemma {:induction false} EffectsBounded(session: Session, arrivals: seq<Incoming>)
    requires AllMatching(arrivals)
    ensures |RespondAll(session, arrivals).1| <= |arrivals|
    decreases |arrivals|
  {
    hide Respond;
    if arrivals != [] {
      var a := arrivals[0];
      var (t, reply) := Respond(ServerState(a.dirs, session, a.locked), a.step, a.env);
      if reply.Wrote? {
        EffectsBounded(t.session, arrivals[1..]);
      }
    }
  }

  /** And such a request leaves the login as it is: the requests after it are answered as if it had not been there. */
  lemma RefusedSkipped(session: Session, a: Incoming, later: seq<Incoming>)
    requires a.step == Refused && AllMatching([a] + later) && AllMatching(later)
    ensures RespondAll(session, [a] + later)
         == (RespondAll(session, later).0, [Effect(Wrote("ERR" + "\n"), a.dirs)] + RespondAll(session, later).1)
  {
    hide Handle;
    assert ([a] + later)[1..] == later;
  }
}
