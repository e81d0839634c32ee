/** Sessions of the administration server: the three dictionaries that decide
    who is logged in, and the packet handlers that change them.

    The pure functions say what each handler does to the dictionaries; the class
    at the end updates them in place, as the server does, and is proved to do
    exactly that.  `AdminRuns` proves what holds over whole runs. */
module AdminSession {
  import opened Results
  import opened Bytes

  const MAX_LOGIN_ATTEMPTS := 5
  const LOGIN_WINDOW_SECONDS := 300.0

  type Time = real
  type User = Bytes
  datatype Address = Address(ip: string, port: nat)

  /** One record of `client_info`; `username` is absent until a login succeeds. */
  datatype Client = Client(authenticated: bool, attempts: int, lastAttempt: Time, username: Option<User>)

  const HANDSHAKEN := Client(false, 0, 0.0, None)

  /** `client_info`, `client_last_heartbeat` and `logged_in_admins`. */
  datatype Sessions = Sessions(
    clients: map<Address, Client>,
    beats: map<Address, Time>,
    admins: map<User, Address>)

  const NO_SESSIONS := Sessions(map[], map[], map[])

  /** The user database accepts the credentials, refuses them, or fails. */
  datatype Answer = Accepted | Refused | Raised

  /** What a received packet turns out to be.  `proved` says whether a handshake
      payload decrypts to an acceptable proof, `answer` what the user database says;
      `Other` is every command that leaves the dictionaries alone. */
  datatype Input =
    | Unparsable
    | Handshake(proved: bool)
    | Undecryptable
    | Login(data: Bytes, answer: Answer)
    | Logout
    | Other

  datatype Event = Event(sender: Address, now: Time, input: Input)

  datatype Reply =
    | ParseError | RedundantHandshake | HandshakeFirst
    | HandshakeRejected | HandshakeOk | DecryptError
    | BadLoginPacket | LockedOut | LoggedInElsewhere | LoginOk | LoginFailed
    | LoggedOut | NothingToLogOut | Served
    | Disconnected  // the user database failed, which ends the connection
    | Crashed       // a KeyError, which does the same

  // ----- Handlers as functions -----

  /** `check_client_heartbeat` */
  predicate Expired(s: Sessions, a: Address, now: Time, timeout: int) {
    a in s.beats && now - s.beats[a] > timeout as real
  }

  predicate TimedOut(s: Sessions, u: User, now: Time, timeout: int) {
    u in s.admins && s.admins[u] in s.beats && s.beats[s.admins[u]] > 0.0 && Expired(s, s.admins[u], now, timeout)
  }

  function TimedOutUsers(s: Sessions, now: Time, timeout: int): set<User> {
    set u | u in s.admins && TimedOut(s, u, now, timeout)
  }

  /** The addresses the given users are logged in from. */
  function Seats(s: Sessions, users: set<User>): set<Address> {
    set u | u in users && u in s.admins :: s.admins[u]
  }

  /** `cleanup_timed_out_admins` */
  function Cleanup(s: Sessions, now: Time, timeout: int): Sessions {
    var users := TimedOutUsers(s, now, timeout);
    var seats := Seats(s, users);
    Sessions(s.clients - seats, s.beats - seats, s.admins - users)
  }

  /** The bytes before the first NUL, if there is one. */
  function Field(data: Bytes): (r: Option<User>)
    ensures r.None? <==> 0 !in data
    ensures r.Some? ==> 0 !in r.value && r.value + [0] <= data
  {
    if data == [] then None
    else if data[0] == 0 then Some([])
    else match Field(data[1..])
      case None => None
      case Some(u) =>
        assert data == [data[0]] + data[1..];
        Some([data[0]] + u)
  }

  /** The failure count a login attempt starts from: an old streak is forgotten. */
  function CurrentAttempts(c: Client, now: Time): int {
    if now - c.lastAttempt > LOGIN_WINDOW_SECONDS then 0 else c.attempts
  }

  predicate HeldElsewhere(s: Sessions, a: Address, u: User, now: Time, timeout: int) {
    u in s.admins && s.admins[u] != a && !Expired(s, s.admins[u], now, timeout)
  }

  /** `handle_client_login` */
  function HandleLogin(
      s: Sessions, a: Address, now: Time, timeout: int, data: Bytes, answer: Answer): (Sessions, Reply) {
    match Field(data)
    case None => (s, BadLoginPacket)
    case Some(u) =>
      var attempts := CurrentAttempts(if a in s.clients then s.clients[a] else HANDSHAKEN, now);
      if attempts >= MAX_LOGIN_ATTEMPTS then (s, LockedOut) else
      var s' := Cleanup(s, now, timeout);
      if HeldElsewhere(s', a, u, now, timeout) then (s', LoggedInElsewhere)
      else if answer == Raised then (s', Disconnected)
      else if a !in s'.clients then (s', Crashed)
      else if answer == Accepted then
        var c := s'.clients[a].(authenticated := true, attempts := 0, username := Some(u));
        (s'.(clients := s'.clients[a := c], admins := s'.admins[u := a]), LoginOk)
      else
        var c := s'.clients[a].(attempts := attempts + 1, lastAttempt := now);
        (s'.(clients := s'.clients[a := c]), LoginFailed)
  }

  /** Whether a logout by `a` also frees a name: Python's `if username and ...`
      skips the empty name. */
  predicate FreesName(s: Sessions, a: Address) {
    a in s.clients && s.clients[a].username.Some? &&
    var u := s.clients[a].username.value;
    u != [] && u in s.admins && s.admins[u] == a
  }

  /** `handle_client_logout` */
  function HandleLogout(s: Sessions, a: Address): (Sessions, Reply) {
    if a !in s.clients then (s, NothingToLogOut)
    else
      var admins := if FreesName(s, a) then s.admins - {s.clients[a].username.value} else s.admins;
      (Sessions(s.clients - {a}, s.beats - {a}, admins), LoggedOut)
  }

  /** One turn of the receive loop in `handle_client`. */
  function Step(s: Sessions, e: Event, timeout: int): (Sessions, Reply) {
    var a := e.sender;
    var s := s.(beats := s.beats[a := e.now]);
    var live := a in s.clients && !Expired(s, a, e.now, timeout);
    match e.input
    case Unparsable => (s, ParseError)
    case Handshake(proved) =>
      if live then (s, RedundantHandshake)
      else if !proved then (s, HandshakeRejected)
      else (s.(clients := s.clients[a := HANDSHAKEN]), HandshakeOk)
    case _ =>
      if !live then (s, HandshakeFirst)
      else match e.input
        case Undecryptable => (s, DecryptError)
        case Login(data, answer) => HandleLogin(s, a, e.now, timeout, data, answer)
        case Logout => HandleLogout(s, a)
        case _ => (s, Served)
  }

  /** The dictionaries after a run of packets, from an empty server. */
  function Run(es: seq<Event>, timeout: int): Sessions {
    if es == [] then NO_SESSIONS
    else Step(Run(es[..|es| - 1], timeout), es[|es| - 1], timeout).0
  }

  lemma RunExtends(es: seq<Event>, e: Event, timeout: int)
    ensures Run(es + [e], timeout) == Step(Run(es, timeout), e, timeout).0
  {
    assert (es + [e])[..|es|] == es;
  }

  // ----- The server object -----

  class AdministrationServer {
    const timeout: int  // admin_inactive_timeout
    var clientInfo: map<Address, Client>
    var clientLastHeartbeat: map<Address, Time>
    var loggedInAdmins: map<User, Address>
    ghost var log: seq<Event>  // every packet handled so far

    ghost function State(): Sessions
      reads this
    {
      Sessions(clientInfo, clientLastHeartbeat, loggedInAdmins)
    }

    ghost predicate Valid()
      reads this
    {
      State() == Run(log, timeout)
    }

    constructor (timeout: int)
      ensures Valid() && log == [] && this.timeout == timeout
    {
      this.timeout := timeout;
      clientInfo, clientLastHeartbeat, loggedInAdmins := map[], map[], map[];
      log := [];
    }

    method CheckClientHeartbeat(a: Address, now: Time) returns (expired: bool)
      ensures expired == Expired(State(), a, now, timeout)
    {
      if a in clientLastHeartbeat {
        if now - clientLastHeartbeat[a] > timeout as real {
          return true;
        }
      }
      return false;
    }

    /** First collects the timed-out names, then pops them one by one. */
    method CleanupTimedOutAdmins(now: Time)
      modifies `clientInfo, `clientLastHeartbeat, `loggedInAdmins
      ensures State() == Cleanup(old(State()), now, timeout)
    {
      ghost var s := State();
      var timedOut: seq<User> := [];
      var todo := loggedInAdmins.Keys;
      while todo != {}
        invariant State() == s && todo <= s.admins.Keys
        invariant forall u :: u in timedOut <==> u in s.admins && u !in todo && TimedOut(s, u, now, timeout)
        decreases todo
      {
        var u :| u in todo;
        todo := todo - {u};
        var a := loggedInAdmins[u];
        var lastHeartbeat := if a in clientLastHeartbeat then clientLastHeartbeat[a] else 0.0;
        if lastHeartbeat > 0.0 && now - lastHeartbeat > timeout as real {
          timedOut := timedOut + [u];
        }
      }
      ghost var popped: set<User> := {};
      for i := 0 to |timedOut|
        invariant popped == (set u | u in timedOut[..i])
        invariant popped <= s.admins.Keys
        invariant loggedInAdmins == s.admins - popped
        invariant clientInfo == s.clients - Seats(s, popped)
        invariant clientLastHeartbeat == s.beats - Seats(s, popped)
      {
        var u := timedOut[i];
        assert u in timedOut;
        assert timedOut[..i + 1] == timedOut[..i] + [u];
        if u in loggedInAdmins {
          var a := loggedInAdmins[u];
          loggedInAdmins := loggedInAdmins - {u};
          clientInfo := clientInfo - {a};
          clientLastHeartbeat := clientLastHeartbeat - {a};
          assert Seats(s, popped + {u}) == Seats(s, popped) + {a};
        } else {
          assert popped + {u} == popped;
        }
        popped := popped + {u};
      }
      assert timedOut[..|timedOut|] == timedOut;
      assert popped == TimedOutUsers(s, now, timeout);
    }

    method IsAdminAlreadyLoggedIn(u: User, now: Time) returns (holder: Option<Address>)
      modifies `clientInfo, `clientLastHeartbeat, `loggedInAdmins
      ensures State() == Cleanup(old(State()), now, timeout)
      ensures holder == if u in loggedInAdmins && !Expired(State(), loggedInAdmins[u], now, timeout)
                        then Some(loggedInAdmins[u]) else None
    {
      CleanupTimedOutAdmins(now);
      if u in loggedInAdmins {
        var a := loggedInAdmins[u];
        var expired := CheckClientHeartbeat(a, now);
        if !expired {
          return Some(a);
        }
      }
      return None;
    }

    method HandleClientLogin(a: Address, now: Time, data: Bytes, answer: Answer) returns (reply: Reply)
      modifies `clientInfo, `clientLastHeartbeat, `loggedInAdmins
      ensures (State(), reply) == HandleLogin(old(State()), a, now, timeout, data, answer)
    {
      var field := Field(data);
      if field.None? {
        return BadLoginPacket;
      }
      var u := field.value;
      var lastAttempt := if a in clientInfo then clientInfo[a].lastAttempt else 0.0;
      var attempts := if a in clientInfo then clientInfo[a].attempts else 0;
      if now - lastAttempt > LOGIN_WINDOW_SECONDS {
        attempts := 0;
      }
      if attempts >= MAX_LOGIN_ATTEMPTS {
        return LockedOut;
      }
      var holder := IsAdminAlreadyLoggedIn(u, now);
      if holder.Some? && holder.value != a {
        return LoggedInElsewhere;
      }
      if answer == Raised {
        return Disconnected;
      }
      if a !in clientInfo {
        return Crashed;
      }
      if answer == Accepted {
        clientInfo := clientInfo[a := clientInfo[a].(authenticated := true, attempts := 0, username := Some(u))];
        loggedInAdmins := loggedInAdmins[u := a];
        return LoginOk;
      }
      attempts := attempts + 1;
      clientInfo := clientInfo[a := clientInfo[a].(attempts := attempts, lastAttempt := now)];
      return LoginFailed;
    }

    method HandleClientLogout(a: Address) returns (reply: Reply)
      modifies `clientInfo, `clientLastHeartbeat, `loggedInAdmins
      ensures (State(), reply) == HandleLogout(old(State()), a)
    {
      if a !in clientInfo {
        return NothingToLogOut;
      }
      var username := clientInfo[a].username;
      if username.Some? && username.value != [] && username.value in loggedInAdmins {
        if loggedInAdmins[username.value] == a {
          loggedInAdmins := loggedInAdmins - {username.value};
        }
      }
      clientInfo := clientInfo - {a};
      if a in clientLastHeartbeat {
        clientLastHeartbeat := clientLastHeartbeat - {a};
      }
      assert clientLastHeartbeat == old(clientLastHeartbeat) - {a};
      return LoggedOut;
    }

    /** One packet from `e.sender`, after it has been read from the socket. */
    method HandleClient(e: Event) returns (reply: Reply)
      requires Valid()
      modifies this
      ensures Valid() && log == old(log) + [e]
      ensures (State(), reply) == Step(old(State()), e, timeout)
    {
      RunExtends(log, e, timeout);
      log := log + [e];
      var a := e.sender;
      clientLastHeartbeat := clientLastHeartbeat[a := e.now];
      if e.input.Unparsable? {
        return ParseError;
      }
      var expired := CheckClientHeartbeat(a, e.now);
      if e.input.Handshake? && a in clientInfo && !expired {
        return RedundantHandshake;
      }
      if a !in clientInfo || expired {
        if e.input.Handshake? {
          if !e.input.proved {
            return HandshakeRejected;
          }
          clientInfo := clientInfo[a := HANDSHAKEN];
          return HandshakeOk;
        }
        return HandshakeFirst;
      }
      match e.input {
        case Undecryptable => reply := DecryptError;
        case Login(data, answer) => reply := HandleClientLogin(a, e.now, data, answer);
        case Logout => reply := HandleClientLogout(a);
        case Other => reply := Served;
      }
    }
  }
}
