/** What every run of the administration server keeps: one live session per
    administrator, no crash inside a login, and the lockout after five failed
    credential checks.  Also the runs in which a name is locked out for good. */
module AdminRuns {
  import opened Results
  import opened Bytes
  import opened AdminSession

  /** The server's clock: seconds since 1970, never turned back. */
  ghost predicate Ticking(es: seq<Event>) {
    && (forall i :: 0 <= i < |es| ==> es[i].now > 0.0)
    && (forall i, j :: 0 <= i < j < |es| ==> es[i].now <= es[j].now)
  }

  // ----- One session per administrator -----

  predicate Holds(s: Sessions, a: Address, u: User) {
    a in s.clients && s.clients[a].authenticated && s.clients[a].username == Some(u)
  }

  /** Every authenticated record carries a name, and `logged_in_admins` maps that
      name to the record. */
  ghost predicate Exclusive(s: Sessions) {
    forall a :: a in s.clients && s.clients[a].authenticated ==>
      s.clients[a].username.Some? && s.clients[a].username.value in s.admins &&
      s.admins[s.clients[a].username.value] == a
  }

  ghost predicate Sound(s: Sessions) {
    && Exclusive(s)
    && s.clients.Keys <= s.beats.Keys
    && forall a :: a in s.beats ==> s.beats[a] > 0.0
  }

  /** A record that survives the cleanup keeps its seat; the record being served,
      whose heartbeat is current, always survives. */
  lemma CleanupSound(s: Sessions, now: Time, timeout: int)
    requires Sound(s)
    ensures Sound(Cleanup(s, now, timeout))
    ensures forall a :: a in s.clients && !Expired(s, a, now, timeout) ==> a in Cleanup(s, now, timeout).clients
    ensures forall u :: u in Cleanup(s, now, timeout).admins ==>
      !Expired(Cleanup(s, now, timeout), s.admins[u], now, timeout)
  {
    var users := TimedOutUsers(s, now, timeout);
    var seats := Seats(s, users);
    var s' := Cleanup(s, now, timeout);
    forall u | u in s'.admins
      ensures !Expired(s', s.admins[u], now, timeout)
    {
      assert Expired(s', s.admins[u], now, timeout) ==> u in users;
    }
    forall a | a in s'.clients && s'.clients[a].authenticated
      ensures s.clients[a].username.value in s'.admins
    {
      assert s.clients[a].username.value in users ==> a in seats;
    }
  }

  lemma LoginSound(s: Sessions, a: Address, now: Time, timeout: int, data: Bytes, answer: Answer)
    requires Sound(s) && a in s.clients && !Expired(s, a, now, timeout)
    ensures Sound(HandleLogin(s, a, now, timeout, data, answer).0)
    ensures HandleLogin(s, a, now, timeout, data, answer).1 != Crashed
  {
    CleanupSound(s, now, timeout);
    var s' := Cleanup(s, now, timeout);
    var (s'', reply) := HandleLogin(s, a, now, timeout, data, answer);
    if reply == LoginOk {
      var u := Field(data).value;
      assert u in s'.admins ==> s'.admins[u] == a;
    }
  }

  lemma StepSound(s: Sessions, e: Event, timeout: int)
    requires Sound(s) && e.now > 0.0
    ensures Sound(Step(s, e, timeout).0)
    ensures Step(s, e, timeout).1 != Crashed
  {
    var a := e.sender;
    var s0 := s.(beats := s.beats[a := e.now]);
    assert Sound(s0);
    if e.input.Login? && a in s0.clients && !Expired(s0, a, e.now, timeout) {
      LoginSound(s0, a, e.now, timeout, e.input.data, e.input.answer);
    }
  }

  lemma {:induction false} RunSound(es: seq<Event>, timeout: int)
    requires Ticking(es)
    ensures Sound(Run(es, timeout))
  {
    if es != [] {
      RunSound(es[..|es| - 1], timeout);
      StepSound(Run(es[..|es| - 1], timeout), es[|es| - 1], timeout);
    }
  }

  /** After every run, whatever the timeout, no name is held by two authenticated
      records, the table names the holder, and every record has a heartbeat. */
  lemma OneSessionPerAdmin(es: seq<Event>, timeout: int, a: Address, b: Address, u: User)
    requires Ticking(es)
    ensures var s := Run(es, timeout);
      && s.clients.Keys <= s.beats.Keys
      && (Holds(s, a, u) ==> u in s.admins && s.admins[u] == a)
      && (Holds(s, a, u) && Holds(s, b, u) ==> a == b)
  {
    RunSound(es, timeout);
  }

  /** No packet in any run ends in the KeyError of a login whose own record the
      cleanup removed. */
  lemma NeverCrashes(es: seq<Event>, e: Event, timeout: int)
    requires Ticking(es + [e])
    ensures Step(Run(es, timeout), e, timeout).1 != Crashed
  {
    forall i | 0 <= i < |es| ensures (es + [e])[i] == es[i] {}
    assert (es + [e])[|es|] == e;
    RunSound(es, timeout);
    StepSound(Run(es, timeout), e, timeout);
  }

  // ----- The table and the records in bijection -----

  /** `logged_in_admins` lists the authenticated records and nothing else. */
  ghost predicate Bijective(s: Sessions) {
    Exclusive(s) && forall u :: u in s.admins ==> Holds(s, s.admins[u], u)
  }

  /** The address has been heard of, but not for longer than the timeout. */
  predicate Silent(s: Sessions, a: Address, now: Time, timeout: int) {
    a in s.beats && s.beats[a] + timeout as real < now
  }

  /** Whether `u` could log in at `a` now: nobody has the name, `a` has it, or an
      address that has been silent too long. */
  predicate Free(s: Sessions, a: Address, u: User, now: Time, timeout: int) {
    u !in s.admins || s.admins[u] == a || Silent(s, s.admins[u], now, timeout)
  }

  /** The packets that leave a name behind in `logged_in_admins`, told before they
      are handled: good credentials for a second name that is free, the logout of an
      administrator whose name is empty, and, when the timeout is negative, so that
      every record counts as silent, a good handshake. */
  predicate LeavesNameBehind(s: Sessions, e: Event, timeout: int) {
    var a := e.sender;
    a in s.clients && s.clients[a].authenticated &&
    var c := s.clients[a];
    match e.input
    case Login(data, answer) =>
      && timeout >= 0 && answer == Accepted
      && Field(data).Some? && Field(data) != c.username
      && CurrentAttempts(c, e.now) < MAX_LOGIN_ATTEMPTS
      && Free(s, a, Field(data).value, e.now, timeout)
    case Logout => timeout >= 0 && c.username == Some([])
    case Handshake(proved) => timeout < 0 && proved
    case _ => false
  }

  /** Those are the packets whose replies give them away. */
  lemma LeavesNameBehindReply(s: Sessions, e: Event, timeout: int)
    requires Sound(s) && e.now > 0.0
    ensures var a := e.sender; var reply := Step(s, e, timeout).1;
      LeavesNameBehind(s, e, timeout) <==>
        && a in s.clients && s.clients[a].authenticated
        && match e.input
           case Login(data, _) => reply == LoginOk && Field(data) != s.clients[a].username
           case Logout => reply == LoggedOut && s.clients[a].username == Some([])
           case Handshake(_) => reply == HandshakeOk
           case _ => false
  {
    var a := e.sender;
    if e.input.Login? && a in s.clients && timeout >= 0 && Field(e.input.data).Some?
       && CurrentAttempts(s.clients[a], e.now) < MAX_LOGIN_ATTEMPTS {
      LoginFree(s, a, e.now, timeout, e.input.data, e.input.answer);
    }
  }

  lemma LoginFree(s: Sessions, a: Address, now: Time, timeout: int, data: Bytes, answer: Answer)
    requires Sound(s) && now > 0.0 && timeout >= 0 && Field(data).Some? && a in s.clients
    requires CurrentAttempts(s.clients[a], now) < MAX_LOGIN_ATTEMPTS
    ensures Step(s, Event(a, now, Login(data, answer)), timeout).1 == LoginOk <==>
      answer == Accepted && Free(s, a, Field(data).value, now, timeout)
  {
    var s0 := s.(beats := s.beats[a := now]);
    CleanupSound(s0, now, timeout);
    var u := Field(data).value;
    if u in s0.admins && Expired(s0, s0.admins[u], now, timeout) {
      assert u in TimedOutUsers(s0, now, timeout);
    }
  }

  /** A silent holder cannot keep a name: a login with good credentials from a
      live, unlocked client succeeds exactly when the name is free, its own, or
      held by an address whose last packet is older than the timeout. */
  lemma LoginAcceptedIff(es: seq<Event>, timeout: int, a: Address, now: Time, data: Bytes)
    requires Ticking(es) && now > 0.0 && timeout >= 0
    requires Field(data).Some?
    requires a in Run(es, timeout).clients
    requires CurrentAttempts(Run(es, timeout).clients[a], now) < MAX_LOGIN_ATTEMPTS
    ensures var s := Run(es, timeout);
      Step(s, Event(a, now, Login(data, Accepted)), timeout).1 == LoginOk <==>
      Free(s, a, Field(data).value, now, timeout)
  {
    RunSound(es, timeout);
    LoginFree(Run(es, timeout), a, now, timeout, data, Accepted);
    hide *;
  }

  lemma CleanupBijective(s: Sessions, now: Time, timeout: int)
    requires Sound(s) && Bijective(s)
    ensures Bijective(Cleanup(s, now, timeout))
  {
    CleanupSound(s, now, timeout);
    var users := TimedOutUsers(s, now, timeout);
    var s' := Cleanup(s, now, timeout);
    forall u | u in s'.admins
      ensures Holds(s', s'.admins[u], u)
    {
      var a := s.admins[u];
      assert Holds(s, a, u);
      assert forall v :: v in users && s.admins[v] == a ==> Holds(s, a, v);
    }
  }

  lemma LoginBijective(s: Sessions, a: Address, now: Time, timeout: int, data: Bytes, answer: Answer)
    requires Sound(s) && Bijective(s) && a in s.clients && !Expired(s, a, now, timeout)
    ensures var (s', reply) := HandleLogin(s, a, now, timeout, data, answer);
      Bijective(s') <==>
      !(s.clients[a].authenticated && reply == LoginOk && Field(data) != s.clients[a].username)
  {
    LoginSound(s, a, now, timeout, data, answer);
    CleanupSound(s, now, timeout);
    CleanupBijective(s, now, timeout);
    var s1 := Cleanup(s, now, timeout);
    var (s', reply) := HandleLogin(s, a, now, timeout, data, answer);
    if reply == LoginOk {
      var u := Field(data).value;
      if s.clients[a].authenticated && s.clients[a].username != Some(u) {
        var v := s.clients[a].username.value;
        assert Holds(s1, a, v) && s'.admins[v] == a && !Holds(s', a, v);
      } else {
        forall v | v in s'.admins
          ensures Holds(s', s'.admins[v], v)
        {
          assert v in s1.admins ==> Holds(s1, s1.admins[v], v);
        }
      }
    } else {
      forall v | v in s'.admins
        ensures Holds(s', s'.admins[v], v)
      {
        assert v in s1.admins ==> Holds(s1, s1.admins[v], v);
        assert v in s.admins ==> Holds(s, s.admins[v], v);
      }
    }
  }

  lemma LogoutBijective(s: Sessions, a: Address)
    requires Sound(s) && Bijective(s) && a in s.clients
    ensures Bijective(HandleLogout(s, a).0) <==> !(s.clients[a].authenticated && s.clients[a].username == Some([]))
  {
    var s' := HandleLogout(s, a).0;
    if s.clients[a].authenticated && s.clients[a].username == Some([]) {
      assert [] in s'.admins && s'.admins[[]] == a;
    } else {
      forall v | v in s'.admins
        ensures Holds(s', s'.admins[v], v)
      {
        assert Holds(s, s.admins[v], v);
      }
    }
  }

  /** The exact condition, for every packet in every bijective state. */
  lemma BijectionKeptIff(s: Sessions, e: Event, timeout: int)
    requires Sound(s) && Bijective(s) && e.now > 0.0
    ensures Bijective(Step(s, e, timeout).0) <==> !LeavesNameBehind(s, e, timeout)
  {
    LeavesNameBehindReply(s, e, timeout);
    hide LeavesNameBehind;
    var a := e.sender;
    var s0 := s.(beats := s.beats[a := e.now]);
    forall u | u in s0.admins ensures Holds(s0, s0.admins[u], u) {
      assert Holds(s, s.admins[u], u);
    }
    var (s', reply) := Step(s, e, timeout);
    if a in s0.clients && !Expired(s0, a, e.now, timeout) {
      match e.input {
        case Login(data, answer) => LoginBijective(s0, a, e.now, timeout, data, answer);
        case Logout => LogoutBijective(s0, a);
        case _ =>
      }
    } else if reply == HandshakeOk {
      if LeavesNameBehind(s, e, timeout) {
        assert !Holds(s', a, s.clients[a].username.value);
      } else {
        forall u | u in s'.admins ensures Holds(s', s'.admins[u], u) {
          assert Holds(s0, s0.admins[u], u);
        }
      }
    }
  }

  /** Runs without such a packet. */
  ghost predicate Tidy(es: seq<Event>, timeout: int) {
    forall i :: 0 <= i < |es| ==> !LeavesNameBehind(Run(es[..i], timeout), es[i], timeout)
  }

  lemma {:induction false} TidyRunsStayBijective(es: seq<Event>, timeout: int)
    requires Ticking(es) && Tidy(es, timeout)
    ensures Bijective(Run(es, timeout))
  {
    if es != [] {
      var init := es[..|es| - 1];
      forall i | 0 <= i < |init| ensures init[..i] == es[..i] {}
      TidyRunsStayBijective(init, timeout);
      RunSound(init, timeout);
      BijectionKeptIff(Run(init, timeout), es[|es| - 1], timeout);
    }
  }

  /** In a bijective state the cleanup removes exactly the authenticated records
      that have been silent too long, with their heartbeats and their names. */
  lemma CleanupRemovesExactly(s: Sessions, now: Time, timeout: int, a: Address, u: User)
    requires Sound(s) && Bijective(s)
    ensures var s' := Cleanup(s, now, timeout);
      var gone := a in s.clients && s.clients[a].authenticated && Silent(s, a, now, timeout);
      && (a in s'.clients <==> a in s.clients && !gone)
      && (a in s'.beats <==> a in s.beats && !gone)
      && (u in s'.admins <==> u in s.admins && !Silent(s, s.admins[u], now, timeout))
  {
    var users := TimedOutUsers(s, now, timeout);
    var gone := a in s.clients && s.clients[a].authenticated && Expired(s, a, now, timeout);
    if gone {
      assert s.clients[a].username.value in users;
    }
    if a in Seats(s, users) {
      var v :| v in users && v in s.admins && s.admins[v] == a;
      assert Holds(s, a, v);
    }
  }

  /** A handshake from a client that has a record never resets it, unless the
      configured timeout is negative. */
  lemma LiveHandshakeIgnored(s: Sessions, e: Event, timeout: int)
    requires timeout >= 0 && e.input.Handshake? && e.sender in s.clients
    ensures Step(s, e, timeout) == (s.(beats := s.beats[e.sender := e.now]), RedundantHandshake)
  {
  }

  /** A logout takes back what a login gave: the record goes, and the name is free. */
  lemma LogoutUndoesLogin(s: Sessions, a: Address, now: Time, timeout: int, data: Bytes)
    requires HandleLogin(s, a, now, timeout, data, Accepted).1 == LoginOk
    ensures var after := HandleLogout(HandleLogin(s, a, now, timeout, data, Accepted).0, a).0;
      var clean := Cleanup(s, now, timeout);
      var u := Field(data).value;
      && after.clients == clean.clients - {a} && after.beats == clean.beats - {a}
      && after.admins == if u == [] then clean.admins[u := a] else clean.admins - {u}
  {
    var clean := Cleanup(s, now, timeout);
    var u := Field(data).value;
    assert clean.admins[u := a] - {u} == clean.admins - {u};
  }

  // ----- Who is served -----

  /** The gate: a command goes no further exactly when its sender has no record, or
      the timeout is negative, so that nobody counts as present. */
  lemma GateIff(s: Sessions, e: Event, timeout: int)
    requires !e.input.Unparsable? && !e.input.Handshake?
    ensures Step(s, e, timeout).1 == HandshakeFirst <==> e.sender !in s.clients || timeout < 0
    ensures Step(s, e, timeout).1 == HandshakeFirst ==>
      Step(s, e, timeout).0 == s.(beats := s.beats[e.sender := e.now])
  {
  }

  /** Behind the gate, what is answered: by the input alone where no login is tried. */
  lemma AnswersIff(s: Sessions, e: Event, timeout: int)
    ensures var reply := Step(s, e, timeout).1;
      var live := e.sender in s.clients && timeout >= 0;
      && (reply == ParseError <==> e.input.Unparsable?)
      && (reply == RedundantHandshake <==> e.input.Handshake? && live)
      && (reply == HandshakeOk <==> e.input == Handshake(true) && !live)
      && (reply == HandshakeRejected <==> e.input == Handshake(false) && !live)
      && (reply == DecryptError <==> e.input.Undecryptable? && live)
      && (reply == LoggedOut <==> e.input.Logout? && live)
      && (reply == Served <==> e.input.Other? && live)
      && (reply == BadLoginPacket <==> e.input.Login? && live && 0 !in e.input.data)
      && reply != NothingToLogOut
  {
  }

  /** In any state at all, the cleanup frees the names whose seat has been silent too
      long, and a seat whose heartbeat is not after zero never has been. */
  lemma NamesKept(s: Sessions, now: Time, timeout: int, u: User)
    ensures u in Cleanup(s, now, timeout).admins <==>
      u in s.admins && (Silent(s, s.admins[u], now, timeout) ==> s.beats[s.admins[u]] <= 0.0)
    ensures u in Cleanup(s, now, timeout).admins ==> Cleanup(s, now, timeout).admins[u] == s.admins[u]
  {
  }

  /** In any state at all, the name is refused exactly when it is not free: a seat the
      cleanup passes over is still tested for silence. */
  lemma ElsewhereIff(s: Sessions, a: Address, now: Time, timeout: int, data: Bytes, answer: Answer)
    requires Field(data).Some?
    ensures HandleLogin(s, a, now, timeout, data, answer).1 == LoggedInElsewhere <==>
      && CurrentAttempts(if a in s.clients then s.clients[a] else HANDSHAKEN, now) < 5
      && !Free(s, a, Field(data).value, now, timeout)
  {
    NamesKept(s, now, timeout, Field(data).value);
  }

  /** And where one is tried: the lockout first, then the name, then the database. */
  lemma LoginAnswersIff(s: Sessions, a: Address, now: Time, timeout: int, data: Bytes, answer: Answer)
    requires Sound(s) && now > 0.0 && timeout >= 0 && a in s.clients && Field(data).Some?
    ensures var reply := Step(s, Event(a, now, Login(data, answer)), timeout).1;
      var locked := CurrentAttempts(s.clients[a], now) >= 5;
      var free := Free(s, a, Field(data).value, now, timeout);
      && (reply == LockedOut <==> locked)
      && (reply == LoggedInElsewhere <==> !locked && !free)
      && (reply == LoginOk <==> !locked && free && answer == Accepted)
      && (reply == LoginFailed <==> !locked && free && answer == Refused)
      && (reply == Disconnected <==> !locked && free && answer == Raised)
  {
    var s0 := s.(beats := s.beats[a := now]);
    CleanupSound(s0, now, timeout);
    var u := Field(data).value;
    if u in s0.admins && Expired(s0, s0.admins[u], now, timeout) {
      assert u in TimedOutUsers(s0, now, timeout);
    }
  }

  /** In any state at all, the login of a client that has no record, or whose own
      record its cleanup takes, ends in the KeyError, unless it ended before. */
  lemma CrashedIff(s: Sessions, a: Address, now: Time, timeout: int, data: Bytes, answer: Answer)
    requires Field(data).Some?
    ensures HandleLogin(s, a, now, timeout, data, answer).1 == Crashed <==>
      && CurrentAttempts(if a in s.clients then s.clients[a] else HANDSHAKEN, now) < 5
      && Free(s, a, Field(data).value, now, timeout)
      && answer != Raised
      && (a in s.clients ==> Silent(s, a, now, timeout) && s.beats[a] > 0.0 && a in s.admins.Values)
  {
    NamesKept(s, now, timeout, Field(data).value);
    assert forall u :: u in TimedOutUsers(s, now, timeout) <==> u in s.admins && TimedOut(s, u, now, timeout);
    assert forall b :: b in Seats(s, TimedOutUsers(s, now, timeout)) <==>
      exists u :: u in TimedOutUsers(s, now, timeout) && s.admins[u] == b;
  }

  /** A logout without a record changes nothing. */
  lemma LoggedOutIff(s: Sessions, a: Address)
    ensures HandleLogout(s, a).1 == LoggedOut <==> a in s.clients
    ensures a !in s.clients ==> HandleLogout(s, a) == (s, NothingToLogOut)
    ensures a !in HandleLogout(s, a).0.clients
  {
  }

  /** A packet that no one was logged in or out by, and that made no record, leaves
      everything but its sender's heartbeat; a logout takes that back too. */
  lemma HeartbeatKept(s: Sessions, e: Event, timeout: int)
    ensures var (s', reply) := Step(s, e, timeout);
      && (!e.input.Login? && reply != HandshakeOk && reply != LoggedOut ==>
          s' == s.(beats := s.beats[e.sender := e.now]))
      && (reply == LoggedOut ==> e.sender !in s'.beats && e.sender !in s'.clients)
      && (reply != LoggedOut && timeout >= 0 ==> e.sender in s'.beats && s'.beats[e.sender] == e.now)
      && forall a :: a != e.sender && a in s'.beats ==> a in s.beats && s'.beats[a] == s.beats[a]
  {
  }

  /** When the address was last heard of. */
  function Heard(es: seq<Event>, a: Address): Time {
    if es == [] then 0.0
    else if es[|es| - 1].sender == a then es[|es| - 1].now
    else Heard(es[..|es| - 1], a)
  }

  /** In every run a heartbeat is the time of the last packet from its address. */
  lemma {:induction false} BeatIsLastHeard(es: seq<Event>, timeout: int, a: Address)
    requires timeout >= 0
    ensures a in Run(es, timeout).beats ==> Run(es, timeout).beats[a] == Heard(es, a)
  {
    if es != [] {
      BeatIsLastHeard(es[..|es| - 1], timeout, a);
      HeartbeatKept(Run(es[..|es| - 1], timeout), es[|es| - 1], timeout);
      hide Step;
    }
  }

  /** An administrator was logged in from the address and has been silent too long. */
  predicate SeatTimedOut(s: Sessions, a: Address, now: Time, timeout: int) {
    Silent(s, a, now, timeout) && exists u :: u in s.admins && s.admins[u] == a
  }

  /** The packets that remove the record of `a`: its own logout, and somebody else's
      attempt to log in that gets as far as the cleanup. */
  predicate Removes(s: Sessions, e: Event, timeout: int, a: Address) {
    timeout >= 0 && e.sender in s.clients &&
    if e.sender == a then e.input.Logout? else
      && e.input.Login? && 0 in e.input.data
      && CurrentAttempts(s.clients[e.sender], e.now) < MAX_LOGIN_ATTEMPTS
      && SeatTimedOut(s, a, e.now, timeout)
  }

  lemma RecordAfter(s: Sessions, e: Event, timeout: int, a: Address)
    requires Sound(s) && e.now > 0.0
    ensures a in Step(s, e, timeout).0.clients <==>
      (a in s.clients && !Removes(s, e, timeout, a)) || (e.sender == a && e.input == Handshake(true))
  {
    var s0 := s.(beats := s.beats[e.sender := e.now]);
    var users := TimedOutUsers(s0, e.now, timeout);
    if a in Seats(s0, users) {
      var u :| u in users && u in s0.admins && s0.admins[u] == a;
    }
    forall u | u in s.admins && s.admins[u] == a && a != e.sender && Silent(s, a, e.now, timeout)
      ensures a in s.clients ==> a in Seats(s0, users)
    {
      assert a in s.clients ==> u in users;
    }
  }

  /** Whether the record of `a` was made by a good handshake and has not been removed
      since. */
  ghost predicate Registered(es: seq<Event>, timeout: int, a: Address) {
    exists i :: 0 <= i < |es| && MadeAt(es, timeout, a, i)
  }

  ghost predicate MadeAt(es: seq<Event>, timeout: int, a: Address, i: nat)
    requires i < |es|
  {
    && es[i].sender == a && es[i].input == Handshake(true)
    && forall j :: i < j < |es| ==> !Removes(Run(es[..j], timeout), es[j], timeout, a)
  }

  lemma RegisteredExtends(es: seq<Event>, timeout: int, a: Address)
    requires es != []
    ensures var n := |es| - 1;
      Registered(es, timeout, a) <==>
        || (Registered(es[..n], timeout, a) && !Removes(Run(es[..n], timeout), es[n], timeout, a))
        || (es[n].sender == a && es[n].input == Handshake(true))
  {
    hide Run, Removes;
    var n := |es| - 1;
    var init := es[..n];
    forall j | 0 <= j < n ensures init[..j] == es[..j] {
    }
    forall i | 0 <= i < n
      ensures MadeAt(es, timeout, a, i) <==>
        MadeAt(init, timeout, a, i) && !Removes(Run(init, timeout), es[n], timeout, a)
    {
      if MadeAt(es, timeout, a, i) {
        assert !Removes(Run(es[..n], timeout), es[n], timeout, a);
      }
    }
    if Registered(init, timeout, a) && !Removes(Run(init, timeout), es[n], timeout, a) {
      var i :| 0 <= i < n && MadeAt(init, timeout, a, i);
      assert MadeAt(es, timeout, a, i);
    }
    if es[n].sender == a && es[n].input == Handshake(true) {
      assert MadeAt(es, timeout, a, n);
    }
  }

  lemma {:induction false} RecordIffRegistered(es: seq<Event>, timeout: int, a: Address)
    requires Ticking(es)
    ensures a in Run(es, timeout).clients <==> Registered(es, timeout, a)
  {
    if es != [] {
      var n := |es| - 1;
      TicksBefore(es);
      RecordIffRegistered(es[..n], timeout, a);
      RegisteredExtends(es, timeout, a);
      RunSound(es[..n], timeout);
      RecordAfter(Run(es[..n], timeout), es[n], timeout, a);
      hide Step, Removes, Registered, Sound;
    }
  }

  lemma TicksBefore(es: seq<Event>)
    requires Ticking(es) && es != []
    ensures Ticking(es[..|es| - 1]) && es[|es| - 1].now > 0.0
  {
  }

  /** After every run: a command passes the gate exactly when its sender's record was
      made by a good handshake and neither a logout nor a cleanup has removed it. */
  lemma ServedIff(es: seq<Event>, e: Event, timeout: int)
    requires Ticking(es) && !e.input.Unparsable? && !e.input.Handshake?
    ensures Step(Run(es, timeout), e, timeout).1 != HandshakeFirst <==>
      timeout >= 0 && Registered(es, timeout, e.sender)
  {
    RecordIffRegistered(es, timeout, e.sender);
    GateIff(Run(es, timeout), e, timeout);
    hide Step, Run, Registered;
  }

  // ----- Names that are stranded -----

  /** The name points at an address that has neither record nor heartbeat. */
  predicate Stranded(s: Sessions, u: User, a: Address) {
    u in s.admins && s.admins[u] == a && a !in s.clients && a !in s.beats
  }

  ghost predicate Absent(es: seq<Event>, a: Address) {
    forall i :: 0 <= i < |es| ==> es[i].sender != a
  }

  /** Continuing a run from any state. */
  function Continue(s: Sessions, es: seq<Event>, timeout: int): Sessions {
    if es == [] then s else Step(Continue(s, es[..|es| - 1], timeout), es[|es| - 1], timeout).0
  }

  lemma StrandedStays(s: Sessions, e: Event, timeout: int, u: User, a: Address)
    requires Stranded(s, u, a) && e.sender != a
    ensures Stranded(Step(s, e, timeout).0, u, a)
    ensures e.input.Login? && Field(e.input.data) == Some(u) ==> Step(s, e, timeout).1 != LoginOk
  {
  }

  /** Once stranded, a name is refused to every other address for ever: no timeout
      frees it, because the cleanup skips addresses without a heartbeat. */
  lemma {:induction false} StrandedForever(s: Sessions, es: seq<Event>, timeout: int, u: User, a: Address)
    requires Stranded(s, u, a) && Absent(es, a)
    ensures Stranded(Continue(s, es, timeout), u, a)
    ensures forall e: Event :: e.sender != a && e.input.Login? && Field(e.input.data) == Some(u) ==>
      Step(Continue(s, es, timeout), e, timeout).1 != LoginOk
  {
    if es != [] {
      var init := es[..|es| - 1];
      StrandedForever(s, init, timeout, u, a);
      StrandedStays(Continue(s, init, timeout), es[|es| - 1], timeout, u, a);
    }
    forall e: Event | e.sender != a && e.input.Login? && Field(e.input.data) == Some(u)
      ensures Step(Continue(s, es, timeout), e, timeout).1 != LoginOk
    {
      StrandedStays(Continue(s, es, timeout), e, timeout, u, a);
    }
  }

  lemma FieldOfOne(b: Byte)
    requires b != 0
    ensures Field([b, 0]) == Some([b])
  {
    assert [b, 0][1..] == [0];
    assert Field([0]) == Some([]);
    assert [b] + [] == [b];
  }

  /** A login by the only client there is, under any name. */
  lemma LoneLogin(es: seq<Event>, c: Client, admins: map<User, Address>, a: Address, t: Time, data: Bytes)
    requires Run(es, 300) == Sessions(map[a := c], map[a := t], admins)
    requires c.attempts == 0 && Field(data).Some? && forall u :: u in admins ==> admins[u] == a
    ensures var u := Field(data).value;
      Run(es + [Event(a, t, Login(data, Accepted))], 300)
      == Sessions(map[a := Client(true, 0, c.lastAttempt, Some(u))], map[a := t], admins[u := a])
  {
    var s := Sessions(map[a := c], map[a := t], admins);
    var u := Field(data).value;
    assert s.beats[a := t] == s.beats;
    assert TimedOutUsers(s, t, 300) == {};
    assert Cleanup(s, t, 300) == s;
    var (s', reply) := HandleLogin(s, a, t, 300, data, Accepted);
    assert reply == LoginOk && s'.admins == admins[u := a];
    assert s'.clients == map[a := Client(true, 0, c.lastAttempt, Some(u))];
    RunExtends(es, Event(a, t, Login(data, Accepted)), 300);
  }

  lemma LoneHandshake(a: Address, t: Time)
    ensures Run([Event(a, t, Handshake(true))], 300) == Sessions(map[a := HANDSHAKEN], map[a := t], map[])
  {
    RunExtends([], Event(a, t, Handshake(true)), 300);
    assert [] + [Event(a, t, Handshake(true))] == [Event(a, t, Handshake(true))];
  }

  lemma LoneLogout(es: seq<Event>, a: Address, t: Time, u: User)
    requires Run(es, 300).clients.Keys == {a} && Run(es, 300).beats == map[a := t]
    requires u in Run(es, 300).admins && Run(es, 300).admins[u] == a
    requires Run(es, 300).clients[a].username != Some(u)
    ensures Stranded(Run(es + [Event(a, t, Logout)], 300), u, a)
  {
    RunExtends(es, Event(a, t, Logout), 300);
  }

  /** Logging in under two names and logging out strands the first. */
  lemma SecondNameStrands(a: Address, t: Time)
    requires t > 0.0
    ensures var es := [Event(a, t, Handshake(true))] + [Event(a, t, Login([65, 0], Accepted))]
                      + [Event(a, t, Login([66, 0], Accepted))] + [Event(a, t, Logout)];
      Ticking(es) && Stranded(Run(es, 300), [65], a)
  {
    SecondLoginRun(a, t);
    FourTick(Event(a, t, Handshake(true)), Event(a, t, Login([65, 0], Accepted)),
             Event(a, t, Login([66, 0], Accepted)), Event(a, t, Logout));
    hide *;
    LoneLogout([Event(a, t, Handshake(true))] + [Event(a, t, Login([65, 0], Accepted))]
               + [Event(a, t, Login([66, 0], Accepted))], a, t, [65]);
  }

  lemma FourTick(e: Event, f: Event, g: Event, h: Event)
    requires 0.0 < e.now <= f.now <= g.now <= h.now
    ensures Ticking([e] + [f] + [g] + [h])
  {
  }

  lemma SecondLoginRun(a: Address, t: Time)
    ensures var es := [Event(a, t, Handshake(true))] + [Event(a, t, Login([65, 0], Accepted))]
                      + [Event(a, t, Login([66, 0], Accepted))];
      var s := Run(es, 300);
      && s.clients.Keys == {a} && s.beats == map[a := t]
      && [65] in s.admins && s.admins[[65]] == a && s.clients[a].username != Some([65])
  {
    FieldOfOne(65);
    FieldOfOne(66);
    assert [65] != [66] by { assert [65][0] != [66][0]; }
    hide Run, Step, Field;
    var es1 := [Event(a, t, Handshake(true))];
    LoneHandshake(a, t);
    LoneLogin(es1, HANDSHAKEN, map[], a, t, [65, 0]);
    var es2 := es1 + [Event(a, t, Login([65, 0], Accepted))];
    LoneLogin(es2, Client(true, 0, 0.0, Some([65])), map[[65] := a], a, t, [66, 0]);
  }

  // ----- Lockout -----

  datatype Check = Check(time: Time, ok: bool)

  /** The history of a record after a reply to its client. */
  function Noted(h: seq<Check>, reply: Reply, now: Time): seq<Check> {
    match reply
    case HandshakeOk => []
    case LoginOk => h + [Check(now, true)]
    case LoginFailed => h + [Check(now, false)]
    case _ => h
  }

  /** The credential checks made for the record `a` has now, oldest first. */
  function Checks(es: seq<Event>, timeout: int, a: Address): seq<Check> {
    if es == [] then [] else
      var init, e := es[..|es| - 1], es[|es| - 1];
      var (s, reply) := Step(Run(init, timeout), e, timeout);
      if a !in s.clients then []
      else if e.sender != a then Checks(init, timeout, a)
      else Noted(Checks(init, timeout, a), reply, e.now)
  }

  /** Length of the run of failures at the end of `h`, each at most 300 seconds
      after the check before it. */
  function Streak(h: seq<Check>): nat {
    if h == [] || h[|h| - 1].ok then 0
    else if |h| > 1 && h[|h| - 1].time - h[|h| - 2].time <= LOGIN_WINDOW_SECONDS then Streak(h[..|h| - 1]) + 1
    else 1
  }

  function LastFailure(h: seq<Check>): Time {
    if h == [] then 0.0
    else if h[|h| - 1].ok then LastFailure(h[..|h| - 1])
    else h[|h| - 1].time
  }

  ghost predicate Chronological(h: seq<Check>) {
    forall i, j :: 0 <= i < j < |h| ==> h[i].time <= h[j].time
  }

  predicate AtMostFive(h: seq<Check>, k: nat)
    requires k <= |h|
  {
    Streak(h[..k]) <= MAX_LOGIN_ATTEMPTS
  }

  /** No prefix of the history ends in more than five failures in a row. */
  ghost predicate Bounded(h: seq<Check>) {
    forall k :: 0 <= k <= |h| ==> AtMostFive(h, k)
  }

  lemma BoundedExtends(h: seq<Check>, c: Check)
    requires Bounded(h) && Streak(h + [c]) <= MAX_LOGIN_ATTEMPTS
    ensures Bounded(h + [c])
  {
    var h' := h + [c];
    forall k | 0 <= k <= |h'|
      ensures AtMostFive(h', k)
    {
      if k <= |h| {
        assert h'[..k] == h[..k];
        assert AtMostFive(h, k);
      } else {
        assert h'[..k] == h';
      }
    }
  }

  lemma StreakExtends(h: seq<Check>, c: Check)
    ensures Streak(h + [c]) ==
      if c.ok then 0
      else if h != [] && c.time - h[|h| - 1].time <= LOGIN_WINDOW_SECONDS then Streak(h) + 1
      else 1
    ensures LastFailure(h + [c]) == if c.ok then LastFailure(h) else c.time
  {
    assert (h + [c])[..|h|] == h;
  }

  /** A record after a reply to its client. */
  function Updated(c: Client, reply: Reply, now: Time, username: Option<User>): Client {
    match reply
    case HandshakeOk => HANDSHAKEN
    case LoginOk => Client(true, 0, c.lastAttempt, username)
    case LoginFailed => c.(attempts := CurrentAttempts(c, now) + 1, lastAttempt := now)
    case _ => c
  }

  /** What one packet does to the record of `a`, whoever sent it.  In particular a
      refused login leaves the counter and the time of the last failure alone. */
  lemma RecordChange(s: Sessions, e: Event, timeout: int, a: Address)
    ensures var (s', reply) := Step(s, e, timeout);
      a in s'.clients ==>
        if e.sender != a then a in s.clients && s'.clients[a] == s.clients[a]
        else if a !in s.clients then reply == HandshakeOk && s'.clients[a] == HANDSHAKEN
        else s'.clients[a] == Updated(s.clients[a], reply, e.now, if e.input.Login? then Field(e.input.data) else None)
  {
    hide HeldElsewhere, TimedOutUsers, Field;
  }

  lemma FailuresAreCounted(s: Sessions, e: Event, timeout: int)
    requires Step(s, e, timeout).1 == LoginFailed
    ensures e.sender in s.clients && CurrentAttempts(s.clients[e.sender], e.now) < MAX_LOGIN_ATTEMPTS
  {
  }

  /** The record agrees with its history, which ends no later than `now`. */
  ghost predicate Agrees(c: Client, h: seq<Check>, now: Time) {
    && c.attempts == Streak(h) && c.lastAttempt == LastFailure(h)
    && Bounded(h) && Chronological(h)
    && (h != [] ==> h[|h| - 1].time <= now)
  }

  lemma CheckAgrees(c: Client, h: seq<Check>, before: Time, ok: bool, now: Time, c': Client)
    requires Agrees(c, h, before) && before <= now
    requires !ok ==> CurrentAttempts(c, now) < MAX_LOGIN_ATTEMPTS
    requires c'.attempts == if ok then 0 else CurrentAttempts(c, now) + 1
    requires c'.lastAttempt == if ok then c.lastAttempt else now
    ensures Agrees(c', h + [Check(now, ok)], now)
  {
    StreakExtends(h, Check(now, ok));
    LastFailureIsOld(h, before);
    BoundedExtends(h, Check(now, ok));
  }

  /** While a streak lasts, the last failure is the last check. */
  lemma LastFailureIsOld(h: seq<Check>, now: Time)
    ensures h != [] && !h[|h| - 1].ok ==> LastFailure(h) == h[|h| - 1].time
    ensures h == [] || h[|h| - 1].ok ==> Streak(h) == 0
  {
  }

  lemma StepAgrees(s: Sessions, e: Event, timeout: int, a: Address, h: seq<Check>, before: Time)
    requires before <= e.now && (a in s.clients ==> Agrees(s.clients[a], h, before))
    ensures var (s', reply) := Step(s, e, timeout);
      a in s'.clients ==> Agrees(s'.clients[a], if e.sender != a then h else Noted(h, reply, e.now), e.now)
  {
    RecordChange(s, e, timeout, a);
    var (s', reply) := Step(s, e, timeout);
    if a in s'.clients && e.sender == a && (reply == LoginOk || reply == LoginFailed) {
      if reply == LoginFailed {
        FailuresAreCounted(s, e, timeout);
      }
      CheckAgrees(s.clients[a], h, before, reply == LoginOk, e.now, s'.clients[a]);
    }
  }

  lemma {:induction false} RunAgrees(es: seq<Event>, timeout: int, a: Address)
    requires Ticking(es)
    ensures a in Run(es, timeout).clients ==>
      Agrees(Run(es, timeout).clients[a], Checks(es, timeout, a), if es == [] then 0.0 else es[|es| - 1].now)
  {
    if es != [] {
      var init := es[..|es| - 1];
      RunAgrees(init, timeout, a);
      StepAgrees(Run(init, timeout), es[|es| - 1], timeout, a, Checks(init, timeout, a),
                 if init == [] then 0.0 else init[|init| - 1].now);
    }
  }

  /** Failures that follow one another within the window add up. */
  lemma {:induction false} CloseFailuresAddUp(h: seq<Check>, i: nat, k: nat)
    requires i + k < |h|
    requires forall j :: i <= j <= i + k ==> !h[j].ok
    requires forall j :: i < j <= i + k ==> h[j].time - h[j - 1].time <= LOGIN_WINDOW_SECONDS
    ensures Streak(h[..i + k + 1]) >= k + 1
  {
    var p := h[..i + k + 1];
    if k > 0 {
      CloseFailuresAddUp(h, i, k - 1);
      assert p[..|p| - 1] == h[..i + k];
    }
  }

  /** Checks i to i+5 all failed, so no success lies between them. */
  ghost predicate SixFailuresAt(h: seq<Check>, i: nat) {
    i + 5 < |h| && forall j :: i <= j <= i + 5 ==> !h[j].ok
  }

  lemma SixFailuresSpread(h: seq<Check>, i: nat)
    requires Bounded(h) && Chronological(h) && SixFailuresAt(h, i)
    ensures h[i + 5].time - h[i].time > LOGIN_WINDOW_SECONDS
  {
    assert AtMostFive(h, i + 6);
    if forall j :: i < j <= i + 5 ==> h[j].time - h[j - 1].time <= LOGIN_WINDOW_SECONDS {
      CloseFailuresAddUp(h, i, 5);
      assert false;
    }
  }

  /** Any six failed checks in a row of one record span more than 300 seconds, in
      every run; and the stored counter never leaves 0..5. */
  lemma {:induction false} AtMostFiveFailures(es: seq<Event>, timeout: int, a: Address, i: nat)
    requires Ticking(es) && a in Run(es, timeout).clients
    ensures 0 <= Run(es, timeout).clients[a].attempts <= 5
    ensures var h := Checks(es, timeout, a);
      SixFailuresAt(h, i) ==> h[i + 5].time - h[i].time > 300.0
  {
    RunAgrees(es, timeout, a);
    var h := Checks(es, timeout, a);
    assert AtMostFive(h, |h|) && h[..|h|] == h;
    if SixFailuresAt(h, i) {
      SixFailuresSpread(h, i);
    }
  }

  /** The lockout, exactly: a login is refused for too many failures when and only
      when the record's history ends in five failures, each within 300 seconds of
      the check before it, and the last is at most 300 seconds old. */
  lemma LockedOutIff(es: seq<Event>, timeout: int, a: Address, now: Time, data: Bytes, answer: Answer)
    requires Ticking(es) && timeout >= 0 && a in Run(es, timeout).clients && Field(data).Some?
    ensures var h := Checks(es, timeout, a);
      Step(Run(es, timeout), Event(a, now, Login(data, answer)), timeout).1 == LockedOut <==>
      Streak(h) == 5 && now - h[|h| - 1].time <= 300.0
  {
    RunAgrees(es, timeout, a);
    LockoutRule(Run(es, timeout), a, now, timeout, data, answer);
    hide Step, Run, Checks, Streak, LastFailure;
    var h := Checks(es, timeout, a);
    assert AtMostFive(h, |h|) && h[..|h|] == h;
    LastFailureIsOld(h, now);
  }

  lemma LockoutRule(s: Sessions, a: Address, now: Time, timeout: int, data: Bytes, answer: Answer)
    requires timeout >= 0 && a in s.clients && Field(data).Some?
    ensures Step(s, Event(a, now, Login(data, answer)), timeout).1 == LockedOut <==>
      CurrentAttempts(s.clients[a], now) >= MAX_LOGIN_ATTEMPTS
  {
    hide Cleanup, HeldElsewhere, Field;
  }
}
