/** The limiter on subscribe requests: at most five in sixty seconds from one
    address.  A refused attempt leaves the stored list as it was, unpruned. */
module RateLimiter {

  type Time = real
  type Address = string  // the client's IP address

  const WINDOW := 60.0
  const LIMIT := 5

  /** `[t for t in attempts if now - t < 60]` */
  function Recent(attempts: seq<Time>, now: Time): seq<Time> {
    if attempts == [] then []
    else (if now - attempts[0] < WINDOW then [attempts[0]] else []) + Recent(attempts[1..], now)
  }

  /** One attempt against the stored list: whether it passes, and the list after. */
  function Attempt(stored: seq<Time>, now: Time): (bool, seq<Time>) {
    var attempts := Recent(stored, now);
    if |attempts| >= LIMIT then (false, stored) else (true, attempts + [now])
  }

  /** `self.login_attempts`, one list per address. */
  class SubscribeLimiter {
    var loginAttempts: map<Address, seq<Time>>

    constructor ()
      ensures loginAttempts == map[]
    {
      loginAttempts := map[];
    }

    function Stored(a: Address): seq<Time>
      reads this
    {
      if a in loginAttempts then loginAttempts[a] else []
    }

    method Admit(a: Address, now: Time) returns (passed: bool)
      modifies this
      ensures (passed, Stored(a)) == Attempt(old(Stored(a)), now)
      ensures forall b :: b != a ==> Stored(b) == old(Stored(b))
    {
      var attempts := Recent(Stored(a), now);
      if |attempts| >= LIMIT {
        return false;
      }
      loginAttempts := loginAttempts[a := attempts + [now]];
      return true;
    }
  }

  // ----- Runs of attempts from one address -----

  ghost predicate Ticking(times: seq<Time>) {
    forall i, j :: 0 <= i < j < |times| ==> times[i] <= times[j]
  }

  /** The list stored after attempts at `times`. */
  function Run(times: seq<Time>): seq<Time> {
    if times == [] then [] else Attempt(Run(times[..|times| - 1]), times[|times| - 1]).1
  }

  /** The times at which an attempt passed, with no pruning at all. */
  function Passed(times: seq<Time>): seq<Time> {
    if times == [] then [] else
      var init, now := times[..|times| - 1], times[|times| - 1];
      if Attempt(Run(init), now).0 then Passed(init) + [now] else Passed(init)
  }

  lemma {:induction false} RecentAppend(attempts: seq<Time>, t: Time, now: Time)
    ensures Recent(attempts + [t], now) == Recent(attempts, now) + (if now - t < WINDOW then [t] else [])
  {
    if attempts == [] {
      assert [] + [t] == [t];
    } else {
      RecentAppend(attempts[1..], t, now);
      assert (attempts + [t])[1..] == attempts[1..] + [t];
    }
  }

  /** Pruning earlier loses nothing that pruning later would keep. */
  lemma {:induction false} RecentTwice(attempts: seq<Time>, now: Time, later: Time)
    requires now <= later
    ensures Recent(Recent(attempts, now), later) == Recent(attempts, later)
  {
    if attempts != [] {
      RecentTwice(attempts[1..], now, later);
      var t := attempts[0];
      if now - t < WINDOW {
        assert ([t] + Recent(attempts[1..], now))[1..] == Recent(attempts[1..], now);
      } else {
        assert [] + Recent(attempts[1..], now) == Recent(attempts[1..], now);
      }
    }
  }

  lemma TickingParts(times: seq<Time>, now: Time)
    requires times != [] && Ticking(times + [now])
    ensures var init, last := times[..|times| - 1], times[|times| - 1];
      last <= now && Ticking(init + [last]) && Ticking(init + [now])
  {
    var all := times + [now];
    assert all[|times| - 1] == times[|times| - 1] && all[|times|] == now;
    var init := times[..|times| - 1];
    assert init + [times[|times| - 1]] == all[..|times|];
    assert forall i :: 0 <= i < |init| ==> (init + [now])[i] == all[i];
  }

  lemma {:induction false} PassedBefore(times: seq<Time>, now: Time)
    requires Ticking(times + [now])
    ensures Ticking(Passed(times) + [now])
  {
    if times != [] {
      TickingParts(times, now);
      var init, last := times[..|times| - 1], times[|times| - 1];
      PassedBefore(init, last);
      PassedBefore(init, now);
      var h := Passed(init);
      assert (h + [last])[|h|] == last;
      forall i | 0 <= i < |h| ensures h[i] <= last {
        assert (h + [last])[i] == h[i];
      }
    }
  }

  /** At any later time the stored list and the full history of passed attempts
      have the same recent part, though refused attempts prune nothing. */
  lemma {:induction false} StoredMeansHistory(times: seq<Time>, now: Time)
    requires Ticking(times + [now])
    ensures Recent(Run(times), now) == Recent(Passed(times), now)
  {
    if times != [] {
      var init, last := times[..|times| - 1], times[|times| - 1];
      TickingParts(times, now);
      StoredMeansHistory(init, now);
      if Attempt(Run(init), last).0 {
        RecentAppend(Recent(Run(init), last), last, now);
        RecentTwice(Run(init), last, now);
        RecentAppend(Passed(init), last, now);
      }
    }
  }

  /** An attempt passes exactly when fewer than five of all earlier passed attempts
      are less than sixty seconds old. */
  lemma PassesIff(times: seq<Time>, now: Time)
    requires Ticking(times + [now])
    ensures Attempt(Run(times), now).0 <==> |Recent(Passed(times), now)| < 5
  {
    StoredMeansHistory(times, now);
  }

  lemma {:induction false} RecentCounts(h: seq<Time>, k: nat, now: Time)
    requires k <= |h| && forall i :: k <= i < |h| ==> now - h[i] < WINDOW
    ensures |Recent(h, now)| >= |h| - k
  {
    if h != [] {
      if k == 0 {
        RecentCounts(h[1..], 0, now);
      } else {
        RecentCounts(h[1..], k - 1, now);
      }
    }
  }

  /** Of any six successive attempts that passed, the last is at least sixty
      seconds after the first, in every run. */
  lemma {:induction false} SixSpanAMinute(times: seq<Time>, i: nat)
    requires Ticking(times) && i + 5 < |Passed(times)|
    ensures Passed(times)[i + 5] - Passed(times)[i] >= 60.0
  {
    var init, now := times[..|times| - 1], times[|times| - 1];
    assert times == init + [now];
    var h := Passed(init);
    if i + 5 < |h| {
      SixSpanAMinute(init, i);
    } else {
      PassesIff(init, now);
      PassedBefore(init, now);
      if now - h[i] < WINDOW {
        forall j | i <= j < |h| ensures now - h[j] < WINDOW {
          assert (h + [now])[i] == h[i] && (h + [now])[j] == h[j];
        }
        RecentCounts(h, i, now);
        assert false;
      }
    }
  }

  lemma {:induction false} RecentOfLate(h: seq<Time>, k: nat, now: Time)
    requires k <= |h| && forall i :: 0 <= i < k ==> now - h[i] >= 60.0
    ensures |Recent(h, now)| <= |h| - k
  {
    if h != [] {
      RecentOfLate(h[1..], if k == 0 then 0 else k - 1, now);
    }
  }

  /** An attempt passes if and only if fewer than five have passed so far, or the
      fifth last of them at least sixty seconds ago. */
  lemma PassesWhen(times: seq<Time>, now: Time)
    requires Ticking(times + [now])
    ensures var h := Passed(times);
      Attempt(Run(times), now).0 <==> |h| < 5 || now - h[|h| - 5] >= 60.0
  {
    PassesIff(times, now);
    PassedBefore(times, now);
    hide Attempt, Run, Passed, Recent;
    RecentIff(Passed(times), now);
  }

  lemma RecentIff(h: seq<Time>, now: Time)
    requires Ticking(h + [now])
    ensures |Recent(h, now)| < 5 <==> |h| < 5 || now - h[|h| - 5] >= 60.0
  {
    forall i, j | 0 <= i < j < |h| ensures h[i] <= h[j] {
      assert (h + [now])[i] == h[i] && (h + [now])[j] == h[j];
    }
    if |h| < 5 {
      RecentOfLate(h, 0, now);
    } else if now - h[|h| - 5] >= 60.0 {
      forall i | 0 <= i < |h| - 4 ensures now - h[i] >= 60.0 {
        assert i < |h| - 5 ==> h[i] <= h[|h| - 5];
      }
      RecentOfLate(h, |h| - 4, now);
    } else {
      forall i | |h| - 5 <= i < |h| ensures now - h[i] < WINDOW {
        assert i > |h| - 5 ==> h[|h| - 5] <= h[i];
      }
      RecentCounts(h, |h| - 5, now);
    }
    hide Recent, Ticking;
  }

  /** The history is that of the attempts that passed, and no others. */
  lemma PassedExtends(times: seq<Time>, now: Time)
    ensures Passed([]) == []
    ensures Passed(times + [now]) == if Attempt(Run(times), now).0 then Passed(times) + [now] else Passed(times)
  {
    assert (times + [now])[..|times|] == times;
  }
}
