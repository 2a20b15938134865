/** Login attempts and the list of locked addresses (`ClientInfo`, `ClientRestrictionManager`, `LoginManager`). */
module Lockout {
  import opened Text

  type Locked = map<string, int>   // address -> time of the lock

  /** What the directory server answers: it cannot be reached, it knows no such user, the password (or a
      user name that is not unique) is refused, or the login is accepted. */
  datatype Verdict = Unreachable | NoSuchUser | WrongPassword | Accepted {
    predicate Failure() {
      NoSuchUser? || WrongPassword?
    }
  }

  const MAX_ATTEMPTS: nat := 3

  // ---------------------------------------------------------------- specification of one call

  /** `std::map::insert`: an address that is locked already keeps its time. */
  function LockAt(locked: Locked, ip: string, now: int): Locked {
    if ip in locked then locked else locked[ip := now]
  }

  /** Entries older than the limit are removed. The original goes on from an iterator it has just erased;
      here the scan goes on with the next entry. */
  function Unlock(locked: Locked, now: int, limit: int): Locked {
    map ip | ip in locked && now - locked[ip] <= limit :: locked[ip]
  }

  datatype Session = Session(ip: string, attempts: nat, loggedIn: bool)

  /** The part of a login after the directory server has answered. */
  function Conclude(s: Session, locked: Locked, verdict: Verdict, now: int): (Session, Locked) {
    match verdict
    case Unreachable => (s, locked)
    case Accepted => (s.(attempts := 0, loggedIn := true), locked)
    case _ =>
      var t := s.(attempts := s.attempts + 1, loggedIn := s.loggedIn && verdict.NoSuchUser?);
      (t, if t.attempts >= MAX_ATTEMPTS then LockAt(locked, s.ip, now) else locked)
  }

  /** A login nothing else interferes with. */
  function LoginSpec(s: Session, locked: Locked, verdict: Verdict, now: int): (Session, Locked, bool) {
    if s.ip in locked then (s, locked, false)
    else
      var (t, l) := Conclude(s, locked, verdict, now);
      (t, l, verdict.Accepted?)
  }

  // ---------------------------------------------------------------- the classes

  class ClientRestrictionManager {
    var lockedClients: Locked
    var lockoutTime: int

    constructor (entries: Locked)
      ensures lockedClients == entries && lockoutTime == 60
    {
      lockedClients, lockoutTime := entries, 60;
    }

    method SetLockoutTime(time: int)
      modifies this`lockoutTime
      ensures lockoutTime == time
    {
      lockoutTime := time;
    }

    method Update(now: int)
      modifies this`lockedClients
      ensures lockedClients == Unlock(old(lockedClients), now, lockoutTime)
    {
      var keys := lockedClients.Keys;
      while keys != {}
        invariant keys <= lockedClients.Keys <= old(lockedClients).Keys
        invariant forall ip :: ip in lockedClients ==> lockedClients[ip] == old(lockedClients)[ip]
        invariant forall ip :: ip in old(lockedClients) && ip !in keys ==>
                    (ip in lockedClients <==> now - old(lockedClients)[ip] <= lockoutTime)
        decreases keys
      {
        var ip :| ip in keys;
        if now - lockedClients[ip] > lockoutTime {
          lockedClients := lockedClients - {ip};
        }
        keys := keys - {ip};
      }
    }

    method Lock(ip: string, now: int)
      modifies this`lockedClients
      ensures lockedClients == LockAt(old(lockedClients), ip, now)
    {
      if ip !in lockedClients {
        lockedClients := lockedClients[ip := now];
      }
    }

    method IsLocked(ip: string) returns (found: bool)
      ensures found <==> ip in lockedClients
    {
      var keys := lockedClients.Keys;
      while keys != {}
        invariant keys <= lockedClients.Keys
        invariant ip in lockedClients ==> ip in keys
        decreases keys
      {
        var key :| key in keys;
        if key == ip {
          return true;
        }
        keys := keys - {key};
      }
      return false;
    }
  }

  class ClientInfo {
    const ip: string
    const manager: ClientRestrictionManager
    var attemptCount: nat

    constructor (ip: string, manager: ClientRestrictionManager)
      ensures this.ip == ip && this.manager == manager && attemptCount == 0
    {
      this.ip, this.manager := ip, manager;
      attemptCount := 0;
    }

    method LoginFailed(now: int)
      modifies this`attemptCount, manager`lockedClients
      ensures attemptCount == old(attemptCount) + 1
      ensures manager.lockedClients == if attemptCount >= MAX_ATTEMPTS then LockAt(old(manager.lockedClients), ip, now)
                                       else old(manager.lockedClients)
    {
      attemptCount := attemptCount + 1;
      if attemptCount >= MAX_ATTEMPTS {
        manager.Lock(ip, now);
      }
    }

    method LoginSucceeded()
      modifies this`attemptCount
      ensures attemptCount == 0
    {
      attemptCount := 0;
    }
  }

  class LoginManager {
    var isLoggedIn: bool

    constructor ()
      ensures !isLoggedIn
    {
      isLoggedIn := false;
    }

    method SendLDAPRequest(client: ClientInfo, verdict: Verdict, now: int) returns (ok: bool)
      modifies this, client`attemptCount, client.manager`lockedClients
      ensures (Session(client.ip, client.attemptCount, isLoggedIn), client.manager.lockedClients, ok)
           == LoginSpec(old(Session(client.ip, client.attemptCount, isLoggedIn)),
                        old(client.manager.lockedClients), verdict, now)
    {
      var locked := client.manager.IsLocked(client.ip);
      if locked {
        return false;
      }
      match verdict {
        case Unreachable =>
          return false;
        case NoSuchUser =>
          client.LoginFailed(now);
          return false;
        case Accepted =>
          client.LoginSucceeded();
          isLoggedIn := true;
          return true;
        case WrongPassword =>
          client.LoginFailed(now);
          isLoggedIn := false;
          return false;
      }
    }
  }

  // ---------------------------------------------------------------- interleaved connections

  /** The steps of all connections together. A login is two steps, because other connections go on while the
      directory server is asked. */
  datatype Action =
    | Connect(id: nat, ip: string)
    | Check(id: nat)
    | Outcome(id: nat, verdict: Verdict, now: int)
    | Update(now: int)

  datatype Conn = Conn(session: Session, asking: bool)

  datatype System = System(locked: Locked, conns: map<nat, Conn>)

  predicate Enabled(s: System, a: Action) {
    match a
    case Connect(id, _) => id !in s.conns
    case Check(id) => id in s.conns && !s.conns[id].asking
    case Outcome(id, _, _) => id in s.conns && s.conns[id].asking
    case Update(_) => true
  }

  function Step(s: System, a: Action, limit: int): System
    requires Enabled(s, a)
  {
    match a
    case Connect(id, ip) => s.(conns := s.conns[id := Conn(Session(ip, 0, false), false)])
    case Check(id) =>
      var c := s.conns[id];
      s.(conns := s.conns[id := c.(asking := c.session.ip !in s.locked)])
    case Outcome(id, verdict, now) =>
      var (session, locked) := Conclude(s.conns[id].session, s.locked, verdict, now);
      System(locked, s.conns[id := Conn(session, false)])
    case Update(now) => s.(locked := Unlock(s.locked, now, limit))
  }

  predicate ValidTrace(s: System, trace: seq<Action>, limit: int)
    decreases |trace|
  {
    trace != [] ==> Enabled(s, trace[0]) && ValidTrace(Step(s, trace[0], limit), trace[1..], limit)
  }

  function After(s: System, trace: seq<Action>, limit: int): System
    requires ValidTrace(s, trace, limit)
    decreases |trace|
  {
    if trace == [] then s else After(Step(s, trace[0], limit), trace[1..], limit)
  }

  /** A login of connection `id` nobody interferes with takes the two steps one after the other. */
  lemma LoginIsTwoSteps(s: System, id: nat, verdict: Verdict, now: int, limit: int)
    requires Enabled(s, Check(id))
    ensures var checked := Step(s, Check(id), limit);
      var (session, locked, ok) := LoginSpec(s.conns[id].session, s.locked, verdict, now);
      && (Enabled(checked, Outcome(id, verdict, now)) <==> s.conns[id].session.ip !in s.locked)
      && (if Enabled(checked, Outcome(id, verdict, now))
          then Step(checked, Outcome(id, verdict, now), limit)
            == System(locked, s.conns[id := Conn(session, false)])
          else (session, locked, ok) == (s.conns[id].session, s.locked, false))
  {
  }

  // ---------------------------------------------------------------- reading the history

  /** Failures of connection `id` in the trace since its last accepted login. */
  function FailuresSince(trace: seq<Action>, id: nat): nat
    decreases |trace|
  {
    if trace == [] then 0
    else
      var before := FailuresSince(trace[..|trace| - 1], id);
      match trace[|trace| - 1]
      case Outcome(i, verdict, _) =>
        if i != id then before
        else if verdict.Accepted? then 0
        else if verdict.Failure() then before + 1
        else before
      case _ => before
  }

  function AddressOf(trace: seq<Action>, id: nat): Option<string>
    decreases |trace|
  {
    if trace == [] then None
    else
      match trace[|trace| - 1]
      case Connect(i, ip) => if i == id then Some(ip) else AddressOf(trace[..|trace| - 1], id)
      case _ => AddressOf(trace[..|trace| - 1], id)
  }

  /** This action is a failed login from `ip`, the third or later in a row on its connection. */
  predicate LocksAddress(trace: seq<Action>, k: nat, ip: string, time: int)
    requires k < |trace|
  {
    var a := trace[k];
    && a.Outcome? && a.verdict.Failure() && a.now == time
    && AddressOf(trace[..k], a.id) == Some(ip)
    && FailuresSince(trace[..k + 1], a.id) >= MAX_ATTEMPTS
  }

  lemma {:induction false} AfterSnoc(s: System, trace: seq<Action>, a: Action, limit: int)
    ensures ValidTrace(s, trace + [a], limit)
       <==> ValidTrace(s, trace, limit) && Enabled(After(s, trace, limit), a)
    ensures ValidTrace(s, trace + [a], limit) ==>
              After(s, trace + [a], limit) == Step(After(s, trace, limit), a, limit)
    decreases |trace|
  {
    hide Step, Enabled;
    if trace == [] {
      assert (trace + [a])[1..] == [];
    } else {
      assert (trace + [a])[1..] == trace[1..] + [a];
      if Enabled(s, trace[0]) {
        AfterSnoc(Step(s, trace[0], limit), trace[1..], a, limit);
      }
    }
  }

  /** The start of the server: the addresses loaded from the file, and no connections. */
  function Start(locked: Locked): System {
    System(locked, map[])
  }

  /** The connections are those opened, with their addresses and their failures. */
  ghost predicate Records(s: System, trace: seq<Action>) {
    && (forall id :: id in s.conns <==> AddressOf(trace, id).Some?)
    && (forall id :: id in s.conns ==> s.conns[id].session.attempts == FailuresSince(trace, id))
    && (forall id :: id in s.conns ==> AddressOf(trace, id) == Some(s.conns[id].session.ip))
    && (forall id :: id !in s.conns ==> FailuresSince(trace, id) == 0)
  }

  lemma FailuresSnoc(trace: seq<Action>, a: Action, id: nat)
    ensures FailuresSince(trace + [a], id)
         == if !a.Outcome? || a.id != id then FailuresSince(trace, id)
            else if a.verdict.Accepted? then 0
            else FailuresSince(trace, id) + (if a.verdict.Failure() then 1 else 0)
    ensures AddressOf(trace + [a], id) == if a.Connect? && a.id == id then Some(a.ip) else AddressOf(trace, id)
  {
    assert (trace + [a])[..|trace|] == trace;
  }

  lemma StepRecords(s: System, trace: seq<Action>, a: Action, limit: int)
    requires Enabled(s, a) && Records(s, trace)
    ensures Records(Step(s, a, limit), trace + [a])
  {
    hide FailuresSince, AddressOf, Unlock, LockAt;
    forall id
      ensures FailuresSince(trace + [a], id)
           == if !a.Outcome? || a.id != id then FailuresSince(trace, id)
              else if a.verdict.Accepted? then 0
              else FailuresSince(trace, id) + (if a.verdict.Failure() then 1 else 0)
      ensures AddressOf(trace + [a], id) == if a.Connect? && a.id == id then Some(a.ip) else AddressOf(trace, id)
    {
      FailuresSnoc(trace, a, id);
    }
  }

  lemma StartRecords(loaded: Locked)
    ensures Records(Start(loaded), [])
  {
  }

  /** Every connection's counter is the number of its failures since its last accepted login. */
  lemma {:induction false} CountersAreHistory(loaded: Locked, trace: seq<Action>, limit: int)
    requires ValidTrace(Start(loaded), trace, limit)
    ensures Records(After(Start(loaded), trace, limit), trace)
    decreases |trace|
  {
    hide Records, Step, Enabled;
    if trace == [] {
      StartRecords(loaded);
    } else {
      var n := |trace| - 1;
      assert trace == trace[..n] + [trace[n]];
      AfterSnoc(Start(loaded), trace[..n], trace[n], limit);
      CountersAreHistory(loaded, trace[..n], limit);
      StepRecords(After(Start(loaded), trace[..n], limit), trace[..n], trace[n], limit);
    }
  }

  /** Lockout safety, where locks come from: an address that the next action newly locks has just seen the
      third (or later) failure in a row on one of its connections, and the entry carries that time. */
  lemma NewLockJustified(loaded: Locked, trace: seq<Action>, a: Action, limit: int, ip: string)
    requires ValidTrace(Start(loaded), trace + [a], limit)
    requires ValidTrace(Start(loaded), trace, limit)
    requires ip !in After(Start(loaded), trace, limit).locked
    ensures var s := After(Start(loaded), trace + [a], limit);
      ip in s.locked <==> a.Outcome? && LocksAddress(trace + [a], |trace|, ip, a.now)
    ensures var s := After(Start(loaded), trace + [a], limit);
      ip in s.locked ==> a.Outcome? && s.locked[ip] == a.now
  {
    hide Records, Step, Enabled, ValidTrace, After, LocksAddress;
    AfterSnoc(Start(loaded), trace, a, limit);
    CountersAreHistory(loaded, trace, limit);
    StepNewlyLocks(After(Start(loaded), trace, limit), trace, a, limit, ip);
  }

  lemma StepNewlyLocks(s: System, trace: seq<Action>, a: Action, limit: int, ip: string)
    requires Enabled(s, a) && Records(s, trace) && ip !in s.locked
    ensures var t := Step(s, a, limit);
      && (ip in t.locked <==> a.Outcome? && LocksAddress(trace + [a], |trace|, ip, a.now))
      && (ip in t.locked ==> a.Outcome? && t.locked[ip] == a.now)
  {
    if a.Outcome? {
      hide FailuresSince, AddressOf;
      assert (trace + [a])[..|trace|] == trace;
      assert (trace + [a])[..|trace| + 1] == trace + [a];
      FailuresSnoc(trace, a, a.id);
    }
  }

  /** Three is the number. After two failures in a row on a connection, a further one, whether the user is unknown or
      the password wrong, leaves its address locked; after fewer it changes no lock at all. */
  lemma ThirdFailureLocks(loaded: Locked, trace: seq<Action>, id: nat, verdict: Verdict, now: int, limit: int)
    requires ValidTrace(Start(loaded), trace, limit)
    requires ValidTrace(Start(loaded), trace + [Outcome(id, verdict, now)], limit)
    requires verdict == NoSuchUser || verdict == WrongPassword
    ensures var before, after := After(Start(loaded), trace, limit),
                                 After(Start(loaded), trace + [Outcome(id, verdict, now)], limit);
      && id in before.conns
      && (FailuresSince(trace, id) >= 2 ==> before.conns[id].session.ip in after.locked)
      && (FailuresSince(trace, id) < 2 ==> after.locked == before.locked)
  {
    hide ValidTrace, After, FailuresSince, AddressOf;
    AfterSnoc(Start(loaded), trace, Outcome(id, verdict, now), limit);
    CountersAreHistory(loaded, trace, limit);
  }

  /** The other answers of the directory server change no lock; an accepted login starts the count again, and without an
      answer nothing changes but that the connection no longer waits. */
  lemma OtherOutcomes(s: System, id: nat, verdict: Verdict, now: int, limit: int)
    requires Enabled(s, Outcome(id, verdict, now)) && (verdict == Accepted || verdict == Unreachable)
    ensures var session := s.conns[id].session;
      Step(s, Outcome(id, verdict, now), limit)
      == s.(conns := s.conns[id := Conn(if verdict == Accepted then Session(session.ip, 0, true) else session, false)])
  {
  }

  /** A wrong password also ends an earlier login; an unknown user name does not. */
  lemma FailureAndLogin(s: System, id: nat, verdict: Verdict, now: int, limit: int)
    requires Enabled(s, Outcome(id, verdict, now)) && (verdict == NoSuchUser || verdict == WrongPassword)
    ensures var session, next := s.conns[id].session, Step(s, Outcome(id, verdict, now), limit).conns[id].session;
      next == Session(session.ip, session.attempts + 1, session.loggedIn && verdict == NoSuchUser)
  {
  }

  /** No update from position `k` on sees more than `limit` time since `time`. */
  predicate NoExpiry(trace: seq<Action>, k: nat, time: int, limit: int) {
    forall j :: k <= j < |trace| && trace[j].Update? ==> trace[j].now - time <= limit
  }

  /** Why an address is locked since `time`: it was loaded so, or position `k` locked it while it was not
      locked, and nothing has expired the entry since. */
  ghost predicate LockedBy(loaded: Locked, trace: seq<Action>, limit: int, ip: string, time: int, k: nat)
    requires ValidTrace(Start(loaded), trace, limit)
  {
    && k < |trace|
    && ValidTrace(Start(loaded), trace[..k], limit)
    && ip !in After(Start(loaded), trace[..k], limit).locked
    && LocksAddress(trace, k, ip, time)
    && NoExpiry(trace, k + 1, time, limit)
  }

  ghost predicate LoadedAndKept(loaded: Locked, trace: seq<Action>, limit: int, ip: string, time: int) {
    ip in loaded && loaded[ip] == time && NoExpiry(trace, 0, time, limit)
  }

  lemma LocksPrefix(trace: seq<Action>, a: Action, k: nat, ip: string, time: int)
    requires k < |trace|
    ensures LocksAddress(trace + [a], k, ip, time) <==> LocksAddress(trace, k, ip, time)
  {
    assert (trace + [a])[..k] == trace[..k];
    assert (trace + [a])[..k + 1] == trace[..k + 1];
  }

  /** Lockout safety, both ways: an address is locked since `time` exactly when it was loaded so or some third
      failure in a row locked it at that time while it was free, and no update since then has seen more than
      the limit. In particular a later failure never refreshes the time. */
  lemma {:induction false} LockedIff(loaded: Locked, trace: seq<Action>, limit: int, ip: string, time: int)
    requires ValidTrace(Start(loaded), trace, limit)
    ensures var s := After(Start(loaded), trace, limit);
      (ip in s.locked && s.locked[ip] == time)
      <==> (LoadedAndKept(loaded, trace, limit, ip, time)
            || exists k :: LockedBy(loaded, trace, limit, ip, time, k))
    decreases |trace|
  {
    hide Step, Enabled, LocksAddress;
    if trace == [] {
    } else {
      var n := |trace| - 1;
      var before, a := trace[..n], trace[n];
      assert trace == before + [a];
      AfterSnoc(Start(loaded), before, a, limit);
      LockedIff(loaded, before, limit, ip, time);
      LockedIffStep(loaded, before, a, limit, ip, time);
    }
  }

  /** One more action: a lock in force stays unless the action expires it, and a new one is this action's. */
  lemma LockedIffStep(loaded: Locked, before: seq<Action>, a: Action, limit: int, ip: string, time: int)
    requires ValidTrace(Start(loaded), before, limit) && ValidTrace(Start(loaded), before + [a], limit)
    requires var s := After(Start(loaded), before, limit);
      (ip in s.locked && s.locked[ip] == time)
      <==> (LoadedAndKept(loaded, before, limit, ip, time)
            || exists k :: LockedBy(loaded, before, limit, ip, time, k))
    ensures var s := After(Start(loaded), before + [a], limit);
      (ip in s.locked && s.locked[ip] == time)
      <==> (LoadedAndKept(loaded, before + [a], limit, ip, time)
            || exists k :: LockedBy(loaded, before + [a], limit, ip, time, k))
  {
    var trace := before + [a];
    var s := After(Start(loaded), before, limit);
    var t := After(Start(loaded), trace, limit);
    StepLocks(loaded, before, a, limit, ip);
    hide After, ValidTrace, LocksAddress;
    assert NoExpiry(trace, 0, time, limit)
      <==> NoExpiry(before, 0, time, limit) && (a.Update? ==> a.now - time <= limit) by {
      SnocExpiry(before, a, 0, time, limit);
    }
    forall k: nat | k < |before|
      ensures LockedBy(loaded, trace, limit, ip, time, k)
         <==> LockedBy(loaded, before, limit, ip, time, k) && (a.Update? ==> a.now - time <= limit)
    {
      LocksPrefix(before, a, k, ip, time);
      SnocExpiry(before, a, k + 1, time, limit);
      assert trace[..k] == before[..k];
    }
    assert trace[..|before|] == before;
    assert LockedBy(loaded, trace, limit, ip, time, |before|)
      <==> ip !in s.locked && LocksAddress(trace, |before|, ip, time);
  }

  lemma SnocExpiry(before: seq<Action>, a: Action, k: nat, time: int, limit: int)
    requires k <= |before|
    ensures NoExpiry(before + [a], k, time, limit)
       <==> NoExpiry(before, k, time, limit) && (a.Update? ==> a.now - time <= limit)
  {
    var trace := before + [a];
    assert trace[|before|] == a;
    forall j | 0 <= j < |before| ensures trace[j] == before[j] {}
  }

  /** The effect of one action on one entry. */
  lemma StepLocks(loaded: Locked, before: seq<Action>, a: Action, limit: int, ip: string)
    requires ValidTrace(Start(loaded), before, limit) && ValidTrace(Start(loaded), before + [a], limit)
    ensures var s := After(Start(loaded), before, limit);
      var t := After(Start(loaded), before + [a], limit);
      && (ip in s.locked ==> (ip in t.locked <==> (a.Update? ==> a.now - s.locked[ip] <= limit)))
      && (ip in s.locked && ip in t.locked ==> t.locked[ip] == s.locked[ip])
      && (ip !in s.locked ==>
            && (ip in t.locked <==> a.Outcome? && LocksAddress(before + [a], |before|, ip, a.now))
            && (ip in t.locked ==> t.locked[ip] == a.now))
  {
    hide ValidTrace, After, LocksAddress;
    AfterSnoc(Start(loaded), before, a, limit);
    if ip !in After(Start(loaded), before, limit).locked {
      NewLockJustified(loaded, before, a, limit, ip);
    }
  }

  predicate Concerns(a: Action, id: nat) {
    (a.Connect? || a.Check? || a.Outcome?) && a.id == id
  }

  /** The login under way on `id` was let through at position `k`, where its address was not locked. */
  ghost predicate LetThrough(loaded: Locked, trace: seq<Action>, limit: int, id: nat, k: nat) {
    && k < |trace| && trace[k] == Check(id)
    && ValidTrace(Start(loaded), trace[..k], limit)
    && id in After(Start(loaded), trace[..k], limit).conns
    && After(Start(loaded), trace[..k], limit).conns[id].session.ip
         !in After(Start(loaded), trace[..k], limit).locked
    && forall j :: k < j < |trace| ==> !Concerns(trace[j], id)
  }

  lemma {:induction false} AskingWasLetThrough(loaded: Locked, trace: seq<Action>, limit: int, id: nat) returns (k: nat)
    requires ValidTrace(Start(loaded), trace, limit)
    requires id in After(Start(loaded), trace, limit).conns && After(Start(loaded), trace, limit).conns[id].asking
    ensures LetThrough(loaded, trace, limit, id, k)
    decreases |trace|
  {
    hide ValidTrace;
    var n := |trace| - 1;
    var before, a := trace[..n], trace[n];
    assert trace == before + [a];
    AfterSnoc(Start(loaded), before, a, limit);
    if Concerns(a, id) {
      k := n;
    } else {
      k := AskingWasLetThrough(loaded, before, limit, id);
      assert trace[..k] == before[..k];
      forall j | k < j < |trace| ensures !Concerns(trace[j], id) {
        if j < n { assert trace[j] == before[j]; }
      }
    }
  }

  /** No verdict is ever acted upon, accepting or not, unless the same connection was let through before, at
      a moment when its address was not locked. So every check made while the address is locked refuses. */
  lemma OutcomeWasLetThrough(loaded: Locked, trace: seq<Action>, id: nat, verdict: Verdict, now: int, limit: int)
    requires ValidTrace(Start(loaded), trace + [Outcome(id, verdict, now)], limit)
    ensures exists k :: LetThrough(loaded, trace, limit, id, k)
  {
    AfterSnoc(Start(loaded), trace, Outcome(id, verdict, now), limit);
    var k := AskingWasLetThrough(loaded, trace, limit, id);
  }
}
