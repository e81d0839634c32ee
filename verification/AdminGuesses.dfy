/** How many passwords one address can try.  The limit of five failures is kept with
    the client record, and a logout, which needs no login, drops the record: the
    limit holds from one handshake to the next, and no further. */
module AdminGuesses {
  import opened Results
  import opened Bytes
  import opened AdminSession
  import opened AdminRuns

  /** A credential check, and after how many handshakes of its address it was made. */
  datatype Attempt = Attempt(check: Check, session: nat)

  /** How many handshakes of the address have succeeded. */
  function Handshakes(es: seq<Event>, timeout: int, a: Address): nat {
    if es == [] then 0 else
      var init, e := es[..|es| - 1], es[|es| - 1];
      var reply := Step(Run(init, timeout), e, timeout).1;
      Handshakes(init, timeout, a) + if e.sender == a && reply == HandshakeOk then 1 else 0
  }

  /** Every credential check ever made for the address, oldest first. */
  function Attempts(es: seq<Event>, timeout: int, a: Address): seq<Attempt> {
    if es == [] then [] else
      var init, e := es[..|es| - 1], es[|es| - 1];
      var reply := Step(Run(init, timeout), e, timeout).1;
      Attempts(init, timeout, a) +
      if e.sender == a && (reply == LoginOk || reply == LoginFailed)
      then [Attempt(Check(e.now, reply == LoginOk), Handshakes(init, timeout, a))] else []
  }

  lemma AttemptsExtend(es: seq<Event>, e: Event, timeout: int, a: Address)
    ensures var reply := Step(Run(es, timeout), e, timeout).1;
      && Handshakes(es + [e], timeout, a) ==
         Handshakes(es, timeout, a) + (if e.sender == a && reply == HandshakeOk then 1 else 0)
      && Attempts(es + [e], timeout, a) ==
         Attempts(es, timeout, a) +
         if e.sender == a && (reply == LoginOk || reply == LoginFailed)
         then [Attempt(Check(e.now, reply == LoginOk), Handshakes(es, timeout, a))] else []
  {
    assert (es + [e])[..|es|] == es;
  }

  // ----- Within one session the limit holds -----

  /** The attempts end with the checks the record knows of, all of its own session. */
  ghost predicate EndsWith(all: seq<Attempt>, checks: seq<Check>, session: nat) {
    && |checks| <= |all|
    && (forall j :: 0 <= j < |all| - |checks| ==> all[j].session < session)
    && (forall j :: |all| - |checks| <= j < |all| ==>
          all[j] == Attempt(checks[j - (|all| - |checks|)], session))
  }

  lemma EndsWithMore(all: seq<Attempt>, checks: seq<Check>, session: nat, c: Check)
    requires EndsWith(all, checks, session)
    ensures EndsWith(all + [Attempt(c, session)], checks + [c], session)
  {
  }

  /** The attempts so far and, if there is a record, the checks it knows of. */
  ghost predicate Knows(all: seq<Attempt>, recorded: bool, checks: seq<Check>, session: nat) {
    (forall j :: 0 <= j < |all| ==> all[j].session <= session) && (recorded ==> EndsWith(all, checks, session))
  }

  lemma {:induction false} RecordKnowsSession(es: seq<Event>, timeout: int, a: Address)
    ensures Knows(Attempts(es, timeout, a), a in Run(es, timeout).clients,
                  Checks(es, timeout, a), Handshakes(es, timeout, a))
  {
    if es != [] {
      var init, e := es[..|es| - 1], es[|es| - 1];
      assert es == init + [e];
      hide *;
      RecordKnowsSession(init, timeout, a);
      KnowsExtended(init, e, timeout, a);
    }
  }

  lemma KnowsExtended(es: seq<Event>, e: Event, timeout: int, a: Address)
    requires Knows(Attempts(es, timeout, a), a in Run(es, timeout).clients,
                   Checks(es, timeout, a), Handshakes(es, timeout, a))
    ensures var r := es + [e];
      Knows(Attempts(r, timeout, a), a in Run(r, timeout).clients, Checks(r, timeout, a), Handshakes(r, timeout, a))
  {
    var s := Run(es, timeout);
    var (s', reply) := Step(s, e, timeout);
    RunExtends(es, e, timeout);
    AttemptsExtend(es, e, timeout, a);
    ChecksExtend(es, e, timeout, a);
    RecordsComeFrom(s, e, timeout, a);
    hide Step, Run, Attempts, Checks, Handshakes, Knows, Noted;
    var all, checks, k := Attempts(es, timeout, a), Checks(es, timeout, a), Handshakes(es, timeout, a);
    if e.sender == a {
      KnowsAfterReply(all, a in s.clients, a in s'.clients, checks, k, reply, e.now);
    } else {
      KnowsLess(all, a in s.clients, a in s'.clients, checks, k);
    }
  }

  lemma ChecksExtend(es: seq<Event>, e: Event, timeout: int, a: Address)
    ensures var (s', reply) := Step(Run(es, timeout), e, timeout);
      Checks(es + [e], timeout, a) ==
        if a !in s'.clients then []
        else if e.sender != a then Checks(es, timeout, a)
        else Noted(Checks(es, timeout, a), reply, e.now)
  {
    assert (es + [e])[..|es|] == es;
  }

  /** A record comes from a handshake, and checks are made for records. */
  lemma RecordsComeFrom(s: Sessions, e: Event, timeout: int, a: Address)
    ensures var (s', reply) := Step(s, e, timeout);
      && (a in s'.clients ==> a in s.clients || (e.sender == a && reply == HandshakeOk))
      && (reply == LoginOk || reply == LoginFailed ==> e.sender in s.clients && e.sender in s'.clients)
  {
    RecordChange(s, e, timeout, a);
    ChecksNeedRecord(s, e, timeout);
    hide Step, Updated;
  }

  lemma KnowsLess(all: seq<Attempt>, had: bool, has: bool, checks: seq<Check>, session: nat)
    requires Knows(all, had, checks, session) && (has ==> had)
    ensures Knows(all, has, if has then checks else [], session)
    ensures Knows(all + [], has, if has then checks else [], session)
  {
    assert all + [] == all;
  }

  lemma KnowsAfterReply(
      all: seq<Attempt>, had: bool, has: bool, checks: seq<Check>, session: nat, reply: Reply, now: Time)
    requires Knows(all, had, checks, session)
    requires has ==> had || reply == HandshakeOk
    requires reply == LoginOk || reply == LoginFailed ==> had && has
    ensures var checked := reply == LoginOk || reply == LoginFailed;
      Knows(all + (if checked then [Attempt(Check(now, reply == LoginOk), session)] else []), has,
            if has then Noted(checks, reply, now) else [], session + if reply == HandshakeOk then 1 else 0)
  {
    if reply == LoginOk || reply == LoginFailed {
      EndsWithMore(all, checks, session, Check(now, reply == LoginOk));
    } else {
      assert all + [] == all;
    }
  }

  lemma ChecksNeedRecord(s: Sessions, e: Event, timeout: int)
    ensures var (s', reply) := Step(s, e, timeout);
      reply == LoginOk || reply == LoginFailed ==> e.sender in s.clients && e.sender in s'.clients
  {
  }

  /** Attempts i to i+5 all failed, between the same two handshakes. */
  ghost predicate SixInOneSession(all: seq<Attempt>, i: nat) {
    i + 5 < |all| && forall j :: i <= j <= i + 5 ==> !all[j].check.ok && all[j].session == all[i].session
  }

  /** In every run, of all attempts an address ever made, any six failures in a row
      within one session span more than 300 seconds. */
  lemma {:induction false} FiveFailuresASession(es: seq<Event>, timeout: int, a: Address, i: nat)
    requires Ticking(es) && SixInOneSession(Attempts(es, timeout, a), i)
    ensures var all := Attempts(es, timeout, a); all[i + 5].check.time - all[i].check.time > 300.0
  {
    hide *;
    SixFit(Attempts(es, timeout, a), i);
    AttemptsOfNone(timeout, a);
    assert es != [];
    var init, e := es[..|es| - 1], es[|es| - 1];
    assert es == init + [e];
    AttemptsGrow(init, e, timeout, a);
    var all, before := Attempts(es, timeout, a), Attempts(init, timeout, a);
    if i + 5 < |before| {
      SixEarlier(all, before, i);
      TicksEarlier(es);
      FiveFailuresASession(init, timeout, a, i);
    } else {
      SixLast(es, timeout, a, i);
    }
  }

  lemma AttemptsOfNone(timeout: int, a: Address)
    ensures Attempts([], timeout, a) == []
  {
  }

  lemma TicksEarlier(es: seq<Event>)
    requires Ticking(es) && es != []
    ensures Ticking(es[..|es| - 1])
  {
  }

  lemma SixEarlier(all: seq<Attempt>, before: seq<Attempt>, i: nat)
    requires SixInOneSession(all, i) && before <= all && i + 5 < |before|
    ensures SixInOneSession(before, i)
  {
  }

  /** One event adds an attempt at most, and only for a record that knows it. */
  lemma AttemptsGrow(es: seq<Event>, e: Event, timeout: int, a: Address)
    ensures var r := es + [e]; var all, before := Attempts(r, timeout, a), Attempts(es, timeout, a);
      && before <= all && |all| <= |before| + 1
      && (|all| > |before| ==> a in Run(r, timeout).clients && |Checks(r, timeout, a)| > 0)
  {
    RunExtends(es, e, timeout);
    AttemptsExtend(es, e, timeout, a);
    ChecksExtend(es, e, timeout, a);
    RecordsComeFrom(Run(es, timeout), e, timeout, a);
    hide Step, Run, Attempts, Checks, Handshakes;
    var before := Attempts(es, timeout, a);
    assert before + [] == before;
  }

  lemma SixLast(es: seq<Event>, timeout: int, a: Address, i: nat)
    requires Ticking(es) && a in Run(es, timeout).clients && |Checks(es, timeout, a)| > 0
    requires var all := Attempts(es, timeout, a); SixInOneSession(all, i) && i + 6 == |all|
    ensures i + 5 < |Attempts(es, timeout, a)|
    ensures var all := Attempts(es, timeout, a); all[i + 5].check.time - all[i].check.time > 300.0
  {
    hide *;
    var all, checks := Attempts(es, timeout, a), Checks(es, timeout, a);
    RecordKnowsSession(es, timeout, a);
    SixAtTheEnd(all, checks, Handshakes(es, timeout, a), i);
    AtMostFiveFailures(es, timeout, a, |checks| - 6);
  }

  lemma SixFit(all: seq<Attempt>, i: nat)
    requires SixInOneSession(all, i)
    ensures i + 6 <= |all|
  {
  }

  lemma SixAtTheEnd(all: seq<Attempt>, checks: seq<Check>, session: nat, i: nat)
    requires Knows(all, true, checks, session) && SixInOneSession(all, i) && i + 6 == |all|
    requires |checks| > 0
    ensures |checks| >= 6 && SixFailuresAt(checks, |checks| - 6)
    ensures checks[|checks| - 1] == all[i + 5].check && checks[|checks| - 6] == all[i].check
  {
    assert all[i + 5].session == session && all[i].session == session;
    var d := |all| - |checks|;
    assert d <= i;
    forall j | |checks| - 6 <= j <= |checks| - 1 ensures !checks[j].ok {
      assert all[d + j] == Attempt(checks[j], session);
    }
  }

  // ----- Across sessions there is no limit -----

  /** A wrong password for the empty name. */
  function Wrong(a: Address, t: Time): Event {
    Event(a, t, Login([0], Refused))
  }

  function WrongTimes(a: Address, t: Time, k: nat): seq<Event> {
    if k == 0 then [] else WrongTimes(a, t, k - 1) + [Wrong(a, t)]
  }

  /** A handshake, some wrong passwords, a logout. */
  function Session(a: Address, t: Time, k: nat): seq<Event> {
    [Event(a, t, Handshake(true))] + WrongTimes(a, t, k) + [Event(a, t, Logout)]
  }

  function Sitting(a: Address, t: Time, sizes: seq<nat>): seq<Event> {
    if sizes == [] then [] else Sitting(a, t, sizes[..|sizes| - 1]) + Session(a, t, sizes[|sizes| - 1])
  }

  function Failures(t: Time, k: nat, session: nat): seq<Attempt> {
    seq(k, _ => Attempt(Check(t, false), session))
  }

  /** So many failures, all at one instant, after each handshake. */
  function Burst(t: Time, sizes: seq<nat>): seq<Attempt> {
    if sizes == [] then [] else
      Burst(t, sizes[..|sizes| - 1]) + Failures(t, sizes[|sizes| - 1], |sizes|)
  }

  /** The dictionaries while `a`, alone, has failed `k` times at `t`. */
  function Trying(a: Address, t: Time, k: nat): Sessions {
    Sessions(map[a := Client(false, k, if k == 0 then 0.0 else t, None)], map[a := t], map[])
  }

  lemma TryingStep(a: Address, t: Time, k: nat, timeout: int)
    requires timeout >= 0 && k < 5
    ensures Step(Trying(a, t, k), Wrong(a, t), timeout) == (Trying(a, t, k + 1), LoginFailed)
  {
    var s := Trying(a, t, k);
    assert Field([0]) == Some([]);
    assert s.beats[a := t] == s.beats;
    assert TimedOutUsers(s, t, timeout) == {};
    assert Cleanup(s, t, timeout) == s;
    assert s.clients[a := s.clients[a].(attempts := k + 1, lastAttempt := t)] == Trying(a, t, k + 1).clients;
  }

  lemma SessionEnds(a: Address, t: Time, k: nat, timeout: int)
    requires timeout >= 0
    ensures Step(NO_SESSIONS, Event(a, t, Handshake(true)), timeout) == (Trying(a, t, 0), HandshakeOk)
    ensures Step(Trying(a, t, k), Event(a, t, Logout), timeout) == (NO_SESSIONS, LoggedOut)
  {
  }

  /** After a handshake and k wrong passwords. */
  lemma {:induction false} WrongTimesRun(es: seq<Event>, a: Address, t: Time, k: nat, timeout: int)
    requires timeout >= 0 && k <= 5 && Run(es, timeout) == Trying(a, t, 0)
    ensures var r := es + WrongTimes(a, t, k);
      && Run(r, timeout) == Trying(a, t, k)
      && Handshakes(r, timeout, a) == Handshakes(es, timeout, a)
      && Attempts(r, timeout, a) == Attempts(es, timeout, a) + Failures(t, k, Handshakes(es, timeout, a))
  {
    hide *;
    if k == 0 {
      NoneWrong(es, a, t, timeout);
    } else {
      WrongTimesRun(es, a, t, k - 1, timeout);
      WrongOnce(es + WrongTimes(a, t, k - 1), a, t, k - 1, timeout);
      WrongAgain(es, a, t, k - 1);
      FailuresExtend(Attempts(es, timeout, a), t, k - 1, Handshakes(es, timeout, a));
    }
  }

  lemma NoneWrong(es: seq<Event>, a: Address, t: Time, timeout: int)
    ensures es + WrongTimes(a, t, 0) == es
    ensures Attempts(es, timeout, a) + Failures(t, 0, Handshakes(es, timeout, a)) == Attempts(es, timeout, a)
  {
    hide Attempts, Handshakes;
  }

  lemma WrongAgain(es: seq<Event>, a: Address, t: Time, k: nat)
    ensures es + WrongTimes(a, t, k) + [Wrong(a, t)] == es + WrongTimes(a, t, k + 1)
  {
    hide Wrong;
  }

  lemma WrongOnce(es: seq<Event>, a: Address, t: Time, k: nat, timeout: int)
    requires timeout >= 0 && k < 5 && Run(es, timeout) == Trying(a, t, k)
    ensures var r := es + [Wrong(a, t)];
      && Run(r, timeout) == Trying(a, t, k + 1)
      && Handshakes(r, timeout, a) == Handshakes(es, timeout, a)
      && Attempts(r, timeout, a) ==
         Attempts(es, timeout, a) + [Attempt(Check(t, false), Handshakes(es, timeout, a))]
  {
    hide Step, Run, Trying, Attempts, Handshakes;
    RunExtends(es, Wrong(a, t), timeout);
    AttemptsExtend(es, Wrong(a, t), timeout, a);
    TryingStep(a, t, k, timeout);
  }

  lemma FailuresExtend(all: seq<Attempt>, t: Time, k: nat, session: nat)
    ensures all + Failures(t, k, session) + [Attempt(Check(t, false), session)] == all + Failures(t, k + 1, session)
  {
  }

  lemma SessionRun(es: seq<Event>, a: Address, t: Time, k: nat, timeout: int)
    requires timeout >= 0 && k <= 5 && Run(es, timeout) == NO_SESSIONS
    ensures var r, h := es + Session(a, t, k), Handshakes(es, timeout, a) + 1;
      && Run(r, timeout) == NO_SESSIONS
      && Handshakes(r, timeout, a) == h
      && Attempts(r, timeout, a) == Attempts(es, timeout, a) + Failures(t, k, h)
  {
    hide Step, Run, Trying, Attempts, Handshakes, WrongTimes;
    SessionEnds(a, t, k, timeout);
    var shake, leave := Event(a, t, Handshake(true)), Event(a, t, Logout);
    var r1 := es + [shake];
    RunExtends(es, shake, timeout);
    AttemptsExtend(es, shake, timeout, a);
    WrongTimesRun(r1, a, t, k, timeout);
    var r2 := r1 + WrongTimes(a, t, k);
    RunExtends(r2, leave, timeout);
    AttemptsExtend(r2, leave, timeout, a);
    assert es + Session(a, t, k) == r2 + [leave];
  }

  lemma {:induction false} SittingRun(a: Address, t: Time, sizes: seq<nat>, timeout: int)
    requires timeout >= 0 && forall i :: 0 <= i < |sizes| ==> sizes[i] <= 5
    ensures var es := Sitting(a, t, sizes);
      && Run(es, timeout) == NO_SESSIONS
      && Handshakes(es, timeout, a) == |sizes|
      && Attempts(es, timeout, a) == Burst(t, sizes)
  {
    if sizes != [] {
      var n := |sizes| - 1;
      SittingRun(a, t, sizes[..n], timeout);
      SessionRun(Sitting(a, t, sizes[..n]), a, t, sizes[n], timeout);
    }
  }

  lemma {:induction false} SittingTicks(a: Address, t: Time, sizes: seq<nat>)
    ensures forall i :: 0 <= i < |Sitting(a, t, sizes)| ==> Sitting(a, t, sizes)[i].now == t
  {
    if sizes != [] {
      var n := |sizes| - 1;
      SittingTicks(a, t, sizes[..n]);
      WrongTimesTick(a, t, sizes[n]);
    }
  }

  lemma {:induction false} WrongTimesTick(a: Address, t: Time, k: nat)
    ensures forall i :: 0 <= i < |WrongTimes(a, t, k)| ==> WrongTimes(a, t, k)[i].now == t
  {
    if k > 0 {
      WrongTimesTick(a, t, k - 1);
    }
  }

  /** Session i + 1 stands after those before it. */
  lemma {:induction false} BurstAt(t: Time, sizes: seq<nat>, i: nat, j: nat)
    requires i < |sizes| && j < sizes[i]
    ensures var d := |Burst(t, sizes[..i])|;
      d + sizes[i] <= |Burst(t, sizes)| && Burst(t, sizes)[d + j] == Attempt(Check(t, false), i + 1)
  {
    var n := |sizes| - 1;
    if i < n {
      BurstAt(t, sizes[..n], i, j);
      assert sizes[..n][..i] == sizes[..i];
    }
  }

  ghost predicate Makes(es: seq<Event>, timeout: int, a: Address, t: Time, sizes: seq<nat>) {
    Ticking(es) && Attempts(es, timeout, a) == Burst(t, sizes)
  }

  lemma NoneOverFive(es: seq<Event>, timeout: int, a: Address, t: Time, sizes: seq<nat>, i: nat)
    requires Makes(es, timeout, a, t, sizes) && i < |sizes|
    ensures sizes[i] <= 5
  {
    if sizes[i] > 5 {
      var d, all := |Burst(t, sizes[..i])|, Attempts(es, timeout, a);
      hide Attempts, Burst;
      BurstAt(t, sizes, i, 0);
      forall j | d <= j <= d + 5 ensures all[j] == Attempt(Check(t, false), i + 1) {
        BurstAt(t, sizes, i, j - d);
      }
      FiveFailuresASession(es, timeout, a, d);
      assert false;
    }
  }

  /** What an address can fail at one instant: any number of handshakes, and after
      each of them any number of failures, exactly as long as none exceeds five. */
  lemma BurstIff(a: Address, t: Time, sizes: seq<nat>, timeout: int)
    requires t > 0.0 && timeout >= 0
    ensures (exists es :: Makes(es, timeout, a, t, sizes)) <==> forall i :: 0 <= i < |sizes| ==> sizes[i] <= 5
  {
    hide Attempts, Burst, Sitting, Run;
    if forall i :: 0 <= i < |sizes| ==> sizes[i] <= 5 {
      SittingRun(a, t, sizes, timeout);
      SittingTicks(a, t, sizes);
      assert Makes(Sitting(a, t, sizes), timeout, a, t, sizes);
    }
    if es :| Makes(es, timeout, a, t, sizes) {
      forall i | 0 <= i < |sizes| ensures sizes[i] <= 5 {
        NoneOverFive(es, timeout, a, t, sizes, i);
      }
    }
  }

  ghost predicate AllFail(all: seq<Attempt>, t: Time, n: nat) {
    |all| == n && forall j :: 0 <= j < n ==> all[j].check == Check(t, false)
  }

  lemma {:induction false} SingleFailures(t: Time, n: nat)
    ensures AllFail(Burst(t, seq(n, _ => 1)), t, n)
  {
    if n > 0 {
      assert seq(n, _ => 1)[..n - 1] == seq(n - 1, _ => 1);
      SingleFailures(t, n - 1);
    }
  }

  /** So the failures of one address at one instant are without bound. */
  lemma GuessesUnbounded(a: Address, t: Time, n: nat, timeout: int)
    requires t > 0.0 && timeout >= 0
    ensures exists es :: Ticking(es) && AllFail(Attempts(es, timeout, a), t, n)
  {
    var sizes := seq(n, _ => 1);
    BurstIff(a, t, sizes, timeout);
    SingleFailures(t, n);
    hide Attempts, Burst, AllFail;
    var es :| Makes(es, timeout, a, t, sizes);
  }

  // ----- Many ports, and no logout -----

  ghost predicate NoLogout(es: seq<Event>) {
    forall i :: 0 <= i < |es| ==> !es[i].input.Logout?
  }

  /** A handshake and some wrong passwords, and the connection is left alone. */
  function Trial(a: Address, t: Time, k: nat): seq<Event> {
    [Event(a, t, Handshake(true))] + WrongTimes(a, t, k)
  }

  /** One trial from each of the ports 0, 1, ... of one machine. */
  function Sweep(ip: string, t: Time, sizes: seq<nat>): seq<Event> {
    if sizes == [] then [] else
      var n := |sizes| - 1;
      Sweep(ip, t, sizes[..n]) + Trial(Address(ip, n), t, sizes[n])
  }

  function Tried(t: Time, k: nat): Client {
    Client(false, k, if k == 0 then 0.0 else t, None)
  }

  lemma ShakeAlone(s: Sessions, a: Address, t: Time, timeout: int)
    requires a !in s.clients
    ensures Step(s, Event(a, t, Handshake(true)), timeout)
      == (s.(beats := s.beats[a := t], clients := s.clients[a := Tried(t, 0)]), HandshakeOk)
  {
  }

  /** With nobody logged in the cleanup finds nothing to do. */
  lemma WrongAlone(s: Sessions, a: Address, t: Time, k: nat, timeout: int)
    requires timeout >= 0 && k < 5 && s.admins == map[] && a in s.clients && s.clients[a] == Tried(t, k)
    ensures Step(s, Wrong(a, t), timeout)
      == (s.(beats := s.beats[a := t], clients := s.clients[a := Tried(t, k + 1)]), LoginFailed)
  {
    assert Field([0]) == Some([]);
    var s0 := s.(beats := s.beats[a := t]);
    assert TimedOutUsers(s0, t, timeout) == {};
    assert Seats(s0, {}) == {};
    assert Cleanup(s0, t, timeout) == s0;
  }

  /** What events of `a` leave as it was for everybody else. */
  ghost predicate OthersKept(es: seq<Event>, r: seq<Event>, timeout: int, a: Address) {
    forall b :: b != a ==>
      Attempts(r, timeout, b) == Attempts(es, timeout, b) && Handshakes(r, timeout, b) == Handshakes(es, timeout, b)
  }

  lemma OthersKeptByOne(es: seq<Event>, e: Event, timeout: int)
    ensures OthersKept(es, es + [e], timeout, e.sender)
  {
    forall b | b != e.sender
      ensures Attempts(es + [e], timeout, b) == Attempts(es, timeout, b)
      ensures Handshakes(es + [e], timeout, b) == Handshakes(es, timeout, b)
    {
      AttemptsExtend(es, e, timeout, b);
      assert Attempts(es, timeout, b) + [] == Attempts(es, timeout, b);
    }
  }

  /** The run so far, of which `a` has tried `k` times since it shook hands. */
  ghost predicate TriedRun(es: seq<Event>, r: seq<Event>, a: Address, t: Time, k: nat, timeout: int) {
    var before, after := Run(es, timeout), Run(r, timeout);
    && after.admins == map[] && after.clients == before.clients[a := Tried(t, k)]
    && Handshakes(r, timeout, a) == Handshakes(es, timeout, a) + 1
    && Attempts(r, timeout, a) == Attempts(es, timeout, a) + Failures(t, k, Handshakes(es, timeout, a) + 1)
    && OthersKept(es, r, timeout, a)
  }

  lemma {:induction false} TrialRun(es: seq<Event>, a: Address, t: Time, k: nat, timeout: int)
    requires timeout >= 0 && k <= 5 && Run(es, timeout).admins == map[] && a !in Run(es, timeout).clients
    ensures TriedRun(es, es + Trial(a, t, k), a, t, k, timeout)
  {
    hide *;
    if k == 0 {
      TrialShake(es, a, t, timeout);
    } else {
      TrialRun(es, a, t, k - 1, timeout);
      OneMore(es, es + Trial(a, t, k - 1), a, t, k - 1, timeout);
      TrialAgain(es, a, t, k - 1);
    }
  }

  lemma TrialAgain(es: seq<Event>, a: Address, t: Time, k: nat)
    ensures es + Trial(a, t, k) + [Wrong(a, t)] == es + Trial(a, t, k + 1)
  {
    hide Wrong;
  }

  lemma TrialShake(es: seq<Event>, a: Address, t: Time, timeout: int)
    requires Run(es, timeout).admins == map[] && a !in Run(es, timeout).clients
    ensures TriedRun(es, es + Trial(a, t, 0), a, t, 0, timeout)
  {
    NoneTried(es, a, t);
    hide Step, Run, Attempts, Handshakes, OthersKept, Tried, Trial, Failures;
    var shake := Event(a, t, Handshake(true));
    RunExtends(es, shake, timeout);
    AttemptsExtend(es, shake, timeout, a);
    OthersKeptByOne(es, shake, timeout);
    ShakeAlone(Run(es, timeout), a, t, timeout);
    NoFailures(Attempts(es, timeout, a), t, Handshakes(es, timeout, a) + 1);
  }

  lemma NoneTried(es: seq<Event>, a: Address, t: Time)
    ensures es + Trial(a, t, 0) == es + [Event(a, t, Handshake(true))]
  {
  }

  lemma NoFailures(all: seq<Attempt>, t: Time, session: nat)
    ensures all + Failures(t, 0, session) == all && all + [] == all
  {
  }

  lemma OneMore(es: seq<Event>, r: seq<Event>, a: Address, t: Time, k: nat, timeout: int)
    requires timeout >= 0 && k < 5 && TriedRun(es, r, a, t, k, timeout)
    ensures TriedRun(es, r + [Wrong(a, t)], a, t, k + 1, timeout)
  {
    var r' := r + [Wrong(a, t)];
    assert a in Run(r, timeout).clients && Run(r, timeout).clients[a] == Tried(t, k);
    WrongAlone(Run(r, timeout), a, t, k, timeout);
    RunExtends(r, Wrong(a, t), timeout);
    AttemptsExtend(r, Wrong(a, t), timeout, a);
    OthersKeptByOne(r, Wrong(a, t), timeout);
    OthersKeptTwice(es, r, r', timeout, a);
    FailuresExtend(Attempts(es, timeout, a), t, k, Handshakes(es, timeout, a) + 1);
    UpdatedTwice(Run(es, timeout).clients, a, Tried(t, k), Tried(t, k + 1));
    hide Step, Run, Attempts, Handshakes, Tried, Failures, OthersKept;
  }

  lemma OthersKeptTwice(es: seq<Event>, r: seq<Event>, r': seq<Event>, timeout: int, a: Address)
    requires OthersKept(es, r, timeout, a) && OthersKept(r, r', timeout, a)
    ensures OthersKept(es, r', timeout, a)
  {
    hide Attempts, Handshakes;
  }

  lemma UpdatedTwice(m: map<Address, Client>, a: Address, c: Client, d: Client)
    ensures m[a := c][a := d] == m[a := d]
  {
  }

  /** Every port up to the last has failed as often as it was to, the rest never. */
  ghost predicate Swept(es: seq<Event>, ip: string, t: Time, sizes: seq<nat>, timeout: int) {
    && (forall i :: 0 <= i < |sizes| ==> Attempts(es, timeout, Address(ip, i)) == Failures(t, sizes[i], 1))
    && (forall i: nat :: |sizes| <= i ==>
          && Attempts(es, timeout, Address(ip, i)) == [] && Handshakes(es, timeout, Address(ip, i)) == 0
          && Address(ip, i) !in Run(es, timeout).clients)
    && Run(es, timeout).admins == map[]
  }

  lemma {:induction false} SweepRun(ip: string, t: Time, sizes: seq<nat>, timeout: int)
    requires timeout >= 0 && forall i :: 0 <= i < |sizes| ==> sizes[i] <= 5
    ensures Swept(Sweep(ip, t, sizes), ip, t, sizes, timeout)
  {
    if sizes != [] {
      var n := |sizes| - 1;
      SweepRun(ip, t, sizes[..n], timeout);
      var es := Sweep(ip, t, sizes[..n]);
      TrialRun(es, Address(ip, n), t, sizes[n], timeout);
      SweptMore(es, es + Trial(Address(ip, n), t, sizes[n]), ip, t, sizes, timeout);
      hide Swept, TriedRun, Trial;
    }
  }

  lemma SweptMore(es: seq<Event>, r: seq<Event>, ip: string, t: Time, sizes: seq<nat>, timeout: int)
    requires sizes != [] && Swept(es, ip, t, sizes[..|sizes| - 1], timeout)
    requires TriedRun(es, r, Address(ip, |sizes| - 1), t, sizes[|sizes| - 1], timeout)
    ensures Swept(r, ip, t, sizes, timeout)
  {
    hide Run, Attempts, Handshakes, Failures;
    var n := |sizes| - 1;
    assert Swept(es, ip, t, sizes[..n], timeout) && sizes[..n] == sizes[..|sizes| - 1];
    assert [] + Failures(t, sizes[n], 1) == Failures(t, sizes[n], 1);
    forall i | 0 <= i < n ensures Attempts(r, timeout, Address(ip, i)) == Failures(t, sizes[i], 1) {
      assert sizes[..n][i] == sizes[i] && Address(ip, i) != Address(ip, n);
    }
    forall i: nat | |sizes| <= i
      ensures Attempts(r, timeout, Address(ip, i)) == [] && Handshakes(r, timeout, Address(ip, i)) == 0
      ensures Address(ip, i) !in Run(r, timeout).clients
    {
      assert Address(ip, i) != Address(ip, n);
    }
  }

  lemma {:induction false} SweepTicks(ip: string, t: Time, sizes: seq<nat>)
    ensures forall i :: 0 <= i < |Sweep(ip, t, sizes)| ==> Sweep(ip, t, sizes)[i].now == t
    ensures NoLogout(Sweep(ip, t, sizes))
  {
    if sizes != [] {
      var n := |sizes| - 1;
      SweepTicks(ip, t, sizes[..n]);
      WrongTimesTick(Address(ip, n), t, sizes[n]);
      WrongTimesStay(Address(ip, n), t, sizes[n]);
    }
  }

  lemma {:induction false} WrongTimesStay(a: Address, t: Time, k: nat)
    ensures NoLogout(WrongTimes(a, t, k))
  {
    if k > 0 {
      WrongTimesStay(a, t, k - 1);
    }
  }

  /** A run without any logout in which port i fails so often, all at one instant. */
  ghost predicate Sweeps(es: seq<Event>, ip: string, t: Time, sizes: seq<nat>, timeout: int) {
    && Ticking(es) && NoLogout(es)
    && forall i :: 0 <= i < |sizes| ==> Attempts(es, timeout, Address(ip, i)) == Failures(t, sizes[i], 1)
  }

  /** One machine, without logging out or using a port twice, can fail up to five times
      from each port at one instant, and no more from any: as many as it has ports. */
  lemma SweepIff(ip: string, t: Time, sizes: seq<nat>, timeout: int)
    requires t > 0.0 && timeout >= 0
    ensures (exists es :: Sweeps(es, ip, t, sizes, timeout)) <==> forall i :: 0 <= i < |sizes| ==> sizes[i] <= 5
  {
    hide Attempts, Handshakes, Sweep, Run, Failures;
    if forall i :: 0 <= i < |sizes| ==> sizes[i] <= 5 {
      SweepRun(ip, t, sizes, timeout);
      SweepTicks(ip, t, sizes);
      assert Sweeps(Sweep(ip, t, sizes), ip, t, sizes, timeout);
    }
    if es :| Sweeps(es, ip, t, sizes, timeout) {
      forall i | 0 <= i < |sizes| ensures sizes[i] <= 5 {
        AtMostFiveThere(es, Address(ip, i), t, sizes[i], timeout);
      }
    }
  }

  lemma AtMostFiveThere(es: seq<Event>, a: Address, t: Time, k: nat, timeout: int)
    requires Ticking(es) && Attempts(es, timeout, a) == Failures(t, k, 1)
    ensures k <= 5
  {
    if k > 5 {
      hide Attempts;
      FiveFailuresASession(es, timeout, a, 0);
      assert false;
    }
  }
}
