/**
 Polling for device-flow tokens (RFC 8628, section 3.5) against an arbitrary server, with a
 clock in nanoseconds that requests and sleeps move forward.
 */
module DeviceFlow {

  const SECOND: int := 1000000000

  type Pos = n: nat | n > 0 witness 1

  /** What comes back from the token endpoint. */
  datatype Reply =
    | Unreachable
    | Garbled
    | Reply(status: int, accessToken: string, error: string)

  datatype Result = Token(accessToken: string) | Refused(error: string) | TimedOut

  /** The device authorization response: 0 means the default. */
  function DefaultInterval(interval: int): int {
    if interval == 0 then 5 else interval
  }

  function DefaultExpiry(expiresIn: int): int {
    if expiresIn == 0 then 300 else expiresIn
  }

  datatype Decision = Stop(result: Result) | Again(slower: bool)

  function Decide(r: Reply): Decision {
    match r
    case Unreachable => Again(false)
    case Garbled => Again(false)
    case Reply(status, accessToken, error) =>
      if status == 200 && accessToken != "" then Stop(Token(accessToken))
      else if error == "authorization_pending" || error == "" then Again(false)
      else if error == "slow_down" then Again(true)
      else Stop(Refused(error))
  }

  /** A request: when it was sent, and the interval in force after its reply. */
  datatype Attempt = Attempt(at: int, interval: int)

  datatype Outcome = Outcome(result: Result, attempts: seq<Attempt>)

  /** The world: replies, the time each request takes, and how far each sleep overruns. */
  datatype World = World(reply: nat -> Reply, latency: nat -> Pos, overrun: nat -> nat)

  /** A sleep of a non-positive duration returns at once. */
  function Slept(interval: int): nat {
    if interval > 0 then interval * SECOND else 0
  }

  function After(w: World, k: nat, now: int, interval: int): (later: int)
    ensures later > now && later >= now + Slept(interval)
  {
    now + w.latency(k) + Slept(interval) + w.overrun(k)
  }

  /** The whole exchange from request `k` on. */
  function Poll(w: World, k: nat, now: int, interval: int, deadline: int): Outcome
    decreases deadline - now
  {
    if now >= deadline then Outcome(TimedOut, [])
    else match Decide(w.reply(k))
      case Stop(result) => Outcome(result, [Attempt(now, interval)])
      case Again(slower) =>
        var next := if slower then interval + 1 else interval;
        var rest := Poll(w, k + 1, After(w, k, now, next), next, deadline);
        Outcome(rest.result, [Attempt(now, next)] + rest.attempts)
  }

  /** What the loop does with a response: return, or sleep and go on. */
  method ReadReply(reply: Reply) returns (d: Decision)
    ensures d == Decide(reply)
  {
    if !reply.Reply? {
      return Again(false);
    }
    if reply.status == 200 && reply.accessToken != "" {
      return Stop(Token(reply.accessToken));
    }
    if reply.error == "authorization_pending" || reply.error == "" {
      return Again(false);
    }
    if reply.error == "slow_down" {
      return Again(true);
    }
    return Stop(Refused(reply.error));
  }

  function NextInterval(r: Reply, interval: int): int {
    if Decide(r) == Again(true) then interval + 1 else interval
  }

  /** An exchange that does not end with its first reply. */
  lemma PollAgain(w: World, k: nat, now: int, interval: int, deadline: int)
    requires now < deadline && Decide(w.reply(k)).Again?
    ensures var next := NextInterval(w.reply(k), interval);
            var rest := Poll(w, k + 1, After(w, k, now, next), next, deadline);
            Poll(w, k, now, interval, deadline) == Outcome(rest.result, [Attempt(now, next)] + rest.attempts)
  {
  }

  /** An exchange that some attempts came before. */
  function Behind(attempts: seq<Attempt>, o: Outcome): Outcome {
    Outcome(o.result, attempts + o.attempts)
  }

  lemma BehindAgain(attempts: seq<Attempt>, a: Attempt, o: Outcome)
    ensures Behind(attempts, Outcome(o.result, [a] + o.attempts)) == Behind(attempts + [a], o)
  {
  }

  lemma BehindNothing(o: Outcome)
    ensures Behind([], o) == o
  {
  }

  /** The loop of `pollForTokens`. */
  method PollForTokens(w: World, start: int, initialInterval: int, expiresIn: int)
    returns (result: Result, attempts: seq<Attempt>)
    ensures Outcome(result, attempts) == Poll(w, 0, start, initialInterval, start + expiresIn * SECOND)
  {
    var deadline := start + expiresIn * SECOND;
    var now, interval, k := start, initialInterval, 0;
    attempts := [];
    ghost var whole := Poll(w, 0, start, initialInterval, deadline);
    BehindNothing(whole);
    while now < deadline
      invariant whole == Behind(attempts, Poll(w, k, now, interval, deadline))
      decreases deadline - now
    {
      var reply := w.reply(k);
      var decision := ReadReply(reply);
      if decision.Stop? {
        return decision.result, attempts + [Attempt(now, interval)];
      }
      PollAgain(w, k, now, interval, deadline);
      if decision.slower {
        interval := interval + 1;
      }
      ghost var later := After(w, k, now, interval);
      BehindAgain(attempts, Attempt(now, interval), Poll(w, k + 1, later, interval, deadline));
      attempts := attempts + [Attempt(now, interval)];
      now := After(w, k, now, interval);
      k := k + 1;
    }
    return TimedOut, attempts;
  }

  // ---- what every exchange keeps ----

  /** RFC 8628, section 3.5: an access token ends the exchange. */
  predicate Grants(r: Reply) {
    r.Reply? && r.status == 200 && r.accessToken != ""
  }

  /** The two error codes after which polling goes on; no error at all counts as pending. */
  predicate Pending(r: Reply) {
    !r.Reply? || r.error == "" || r.error == "authorization_pending"
  }

  predicate SlowDown(r: Reply) {
    r.Reply? && r.error == "slow_down" && !Grants(r)
  }

  /** What each reply means for the loop. */
  lemma DecideExactly(r: Reply)
    ensures Decide(r) == Again(true) <==> SlowDown(r)
    ensures Decide(r) == Again(false) <==> !Grants(r) && Pending(r)
    ensures Decide(r).Stop? <==> Grants(r) || (!Pending(r) && !SlowDown(r))
    ensures Grants(r) ==> Decide(r) == Stop(Token(r.accessToken))
    ensures Decide(r).Stop? && !Grants(r) ==> Decide(r) == Stop(Refused(r.error))
  {
  }

  /** How many of `n` replies from the `k`-th on asked to slow down. */
  function SlowDowns(w: World, k: nat, n: nat): nat {
    if n == 0 then 0 else SlowDowns(w, k, n - 1) + if SlowDown(w.reply(k + n - 1)) then 1 else 0
  }

  function SumIntervals(attempts: seq<Attempt>): int {
    if attempts == [] then 0 else attempts[0].interval + SumIntervals(attempts[1..])
  }

  lemma {:induction false} SlowDownsFirst(w: World, k: nat, n: nat)
    requires n > 0
    ensures SlowDowns(w, k, n) == (if SlowDown(w.reply(k)) then 1 else 0) + SlowDowns(w, k + 1, n - 1)
  {
    if n > 1 {
      SlowDownsFirst(w, k, n - 1);
    } else {
      assert SlowDowns(w, k, 0) == 0;
    }
  }

  /**
   The interval after the `j`-th reply is the first one plus the number of slow_downs so far
   (each adds 1 second, where the RFC asks for 5), and so it never falls.
   */
  lemma {:induction false} IntervalCounts(w: World, k: nat, now: int, interval: int, deadline: int, j: nat)
    requires j < |Poll(w, k, now, interval, deadline).attempts|
    ensures Poll(w, k, now, interval, deadline).attempts[j].interval == interval + SlowDowns(w, k, j + 1)
    decreases j
  {
    SlowDownsFirst(w, k, j + 1);
    DecideExactly(w.reply(k));
    if j > 0 {
      PollAgain(w, k, now, interval, deadline);
      var next := NextInterval(w.reply(k), interval);
      IntervalCounts(w, k + 1, After(w, k, now, next), next, deadline, j - 1);
    } else {
      assert SlowDowns(w, k + 1, 0) == 0;
    }
  }

  /** Every request is sent before the deadline, and after sleeping all the intervals so far. */
  lemma {:induction false} SleptBefore(w: World, k: nat, now: int, interval: int, deadline: int, j: nat)
    requires interval >= 1 && j < |Poll(w, k, now, interval, deadline).attempts|
    ensures var attempts := Poll(w, k, now, interval, deadline).attempts;
            now + SumIntervals(attempts[..j]) * SECOND <= attempts[j].at < deadline
    decreases j
  {
    if j > 0 {
      var attempts := Poll(w, k, now, interval, deadline).attempts;
      var next := if SlowDown(w.reply(k)) then interval + 1 else interval;
      SleptBefore(w, k + 1, After(w, k, now, next), next, deadline, j - 1);
      assert attempts[..j][0] == Attempt(now, next);
      assert attempts[..j][1..] == attempts[1..][..j - 1];
    }
  }

  /** The seconds slept before any request that is sent stay below the lifetime of the code. */
  lemma SleptBelowExpiry(w: World, start: int, interval: int, expiresIn: int, j: nat)
    requires interval >= 1
    requires j < |Poll(w, 0, start, interval, start + expiresIn * SECOND).attempts|
    ensures SumIntervals(Poll(w, 0, start, interval, start + expiresIn * SECOND).attempts[..j]) < expiresIn
  {
    SleptBefore(w, 0, start, interval, start + expiresIn * SECOND, j);
  }

  lemma {:induction false} SumAtLeast(attempts: seq<Attempt>, interval: int)
    requires forall i :: 0 <= i < |attempts| ==> attempts[i].interval >= interval
    ensures SumIntervals(attempts) >= |attempts| * interval
  {
    if attempts != [] {
      SumAtLeast(attempts[1..], interval);
      assert |attempts| * interval == |attempts[1..]| * interval + interval;
    }
  }

  /** At most ceil(expiresIn / interval) requests, whatever the server answers. */
  lemma RequestsBounded(w: World, start: int, interval: int, expiresIn: int)
    requires interval >= 1
    ensures var n := |Poll(w, 0, start, interval, start + expiresIn * SECOND).attempts|;
            && (n > 0 ==> (n - 1) * interval < expiresIn)
            && (n > 0 ==> n <= (expiresIn + interval - 1) / interval)
  {
    var deadline := start + expiresIn * SECOND;
    var attempts := Poll(w, 0, start, interval, deadline).attempts;
    var n := |attempts|;
    if n > 0 {
      SleptBelowExpiry(w, start, interval, expiresIn, n - 1);
      var slept := attempts[..n - 1];
      forall i | 0 <= i < |slept| ensures slept[i].interval >= interval {
        IntervalCounts(w, 0, start, interval, deadline, i);
      }
      SumAtLeast(slept, interval);
      Ceiling(n, interval, expiresIn);
    }
  }

  /** A server that cannot be reached, asked as fast as the clock ticks. */
  const UNREACHABLE := World(_ => Unreachable, _ => 1, _ => 0)

  /** Without a positive interval there is no sleep: one request for every nanosecond. */
  lemma {:induction false} Floods(k: nat, now: int, interval: int, deadline: int)
    requires interval <= 0 && now <= deadline
    ensures |Poll(UNREACHABLE, k, now, interval, deadline).attempts| == deadline - now
    decreases deadline - now
  {
    if now < deadline {
      assert After(UNREACHABLE, k, now, interval) == now + 1;
      Floods(k + 1, now + 1, interval, deadline);
    }
  }

  function Requests(w: World, start: int, interval: int, expiresIn: int): nat {
    |Poll(w, 0, start, interval, start + expiresIn * SECOND).attempts|
  }

  /**
   At most one request for each second that the code lives, whatever the server answers, if
   and only if the server did not send a negative interval: only 0 is replaced by a default.
   */
  lemma BoundedExactly(start: int, sent: int, expiresIn: int)
    requires expiresIn > 0
    ensures (forall w :: Requests(w, start, DefaultInterval(sent), expiresIn) <= expiresIn) <==> sent >= 0
  {
    var interval := DefaultInterval(sent);
    if sent >= 0 {
      forall w ensures Requests(w, start, interval, expiresIn) <= expiresIn {
        RequestsBounded(w, start, interval, expiresIn);
        AtMost(Requests(w, start, interval, expiresIn), interval, expiresIn);
      }
    } else {
      Floods(0, start, interval, start + expiresIn * SECOND);
      assert Requests(UNREACHABLE, start, interval, expiresIn) == expiresIn * SECOND;
    }
  }

  lemma AtMost(n: nat, interval: int, expiresIn: int)
    requires interval >= 1 && expiresIn > 0 && (n > 0 ==> (n - 1) * interval < expiresIn)
    ensures n <= expiresIn
  {
    if n > 0 {
      assert (n - 1) * interval >= n - 1;
    }
  }

  /** A server that leaves out both numbers is asked at most 60 times. */
  lemma DefaultsBound(w: World, start: int)
    ensures |Poll(w, 0, start, DefaultInterval(0), start + DefaultExpiry(0) * SECOND).attempts| <= 60
  {
    RequestsBounded(w, start, DefaultInterval(0), DefaultExpiry(0));
  }

  lemma Cancel(a: int, b: int, d: int)
    requires d >= 1 && a * d < b * d
    ensures a < b
  {
  }

  lemma Ceiling(n: nat, d: int, e: int)
    requires n > 0 && d >= 1 && (n - 1) * d < e
    ensures n <= (e + d - 1) / d
  {
    var q := (e + d - 1) / d;
    assert e + d - 1 == q * d + (e + d - 1) % d;
    assert (n - 1) * d == n * d - d;
    assert (q + 1) * d == q * d + d;
    Cancel(n, q + 1, d);
  }

  /** The sum 1 + 2 + ... + m. */
  function Triangle(m: nat): (t: nat)
    ensures 2 * t == m * (m + 1)
  {
    if m == 0 then 0 else Triangle(m - 1) + m
  }

  lemma {:induction false} SlowDownSum(attempts: seq<Attempt>, interval: int)
    requires forall i :: 0 <= i < |attempts| ==> attempts[i].interval == interval + i + 1
    ensures SumIntervals(attempts) == |attempts| * interval + Triangle(|attempts|)
    decreases |attempts|
  {
    if attempts != [] {
      var m := |attempts| - 1;
      SlowDownSum(attempts[..m], interval);
      SumLast(attempts);
      assert (m + 1) * interval == m * interval + interval;
    }
  }

  lemma {:induction false} SumLast(attempts: seq<Attempt>)
    requires attempts != []
    ensures SumIntervals(attempts) == SumIntervals(attempts[..|attempts| - 1]) + attempts[|attempts| - 1].interval
  {
    var front := attempts[..|attempts| - 1];
    if front != [] {
      SumLast(attempts[1..]);
      assert attempts[1..][..|attempts| - 2] == front[1..];
    }
  }

  /**
   A server that answers slow_down `m` times in a row and is asked again must have given a
   code that lives longer than m*interval + 1 + 2 + ... + m seconds.
   */
  lemma SlowDownsCost(w: World, start: int, interval: int, expiresIn: int, m: nat)
    requires interval >= 1 && forall i :: 0 <= i < m ==> SlowDown(w.reply(i))
    requires m < |Poll(w, 0, start, interval, start + expiresIn * SECOND).attempts|
    ensures m * interval + m * (m + 1) / 2 < expiresIn
  {
    var deadline := start + expiresIn * SECOND;
    var attempts := Poll(w, 0, start, interval, deadline).attempts;
    SleptBelowExpiry(w, start, interval, expiresIn, m);
    forall i | 0 <= i < m ensures attempts[..m][i].interval == interval + i + 1 {
      IntervalCounts(w, 0, start, interval, deadline, i);
      AllSlow(w, i + 1);
    }
    SlowDownSum(attempts[..m], interval);
    assert 2 * Triangle(m) == m * (m + 1);
  }

  lemma {:induction false} AllSlow(w: World, n: nat)
    requires forall i :: 0 <= i < n ==> SlowDown(w.reply(i))
    ensures SlowDowns(w, 0, n) == n
  {
    if n > 0 {
      AllSlow(w, n - 1);
      assert SlowDown(w.reply(n - 1));
    }
  }

  /** A reply after which the loop asks again. */
  predicate GoesOn(r: Reply) {
    !Grants(r) && (Pending(r) || SlowDown(r))
  }

  /**
   The result is that of the first reply that grants a token or holds another error code, all
   replies before it having asked to try again; a timeout means that no reply that arrived
   decided.
   */
  lemma {:induction false} FirstDecisionWins(w: World, k: nat, now: int, interval: int, deadline: int)
    ensures var o := Poll(w, k, now, interval, deadline);
            var n := |o.attempts|;
            && (forall i :: k <= i < k + n - 1 ==> GoesOn(w.reply(i)))
            && (if n == 0 || GoesOn(w.reply(k + n - 1)) then o.result == TimedOut
                else if Grants(w.reply(k + n - 1)) then o.result == Token(w.reply(k + n - 1).accessToken)
                else o.result == Refused(w.reply(k + n - 1).error))
    decreases deadline - now
  {
    DecideExactly(w.reply(k));
    if now < deadline && Decide(w.reply(k)).Again? {
      PollAgain(w, k, now, interval, deadline);
      var next := NextInterval(w.reply(k), interval);
      FirstDecisionWins(w, k + 1, After(w, k, now, next), next, deadline);
    }
  }

  /** When the loop is ready to ask again: the request has returned, and the sleep is over. */
  function ReadyAt(w: World, k: nat, a: Attempt): int {
    a.at + w.latency(k) + (if a.interval > 0 then a.interval * 1000000000 else 0) + w.overrun(k)
  }

  /**
   The schedule is exact: the loop asks at once, and again as soon as it is ready, if and only
   if that is before the deadline and the last reply did not decide.
   */
  lemma {:induction false} AskedExactly(w: World, k: nat, now: int, interval: int, deadline: int, j: nat)
    requires j < |Poll(w, k, now, interval, deadline).attempts|
    ensures var attempts := Poll(w, k, now, interval, deadline).attempts;
            && now < deadline && attempts[0].at == now
            && (j + 1 < |attempts| <==> GoesOn(w.reply(k + j)) && ReadyAt(w, k + j, attempts[j]) < deadline)
            && (j + 1 < |attempts| ==> attempts[j + 1].at == ReadyAt(w, k + j, attempts[j]))
    decreases j
  {
    if j == 0 {
      AskedNext(w, k, now, interval, deadline);
    } else {
      PollAgain(w, k, now, interval, deadline);
      var next := NextInterval(w.reply(k), interval);
      AskedExactly(w, k + 1, After(w, k, now, next), next, deadline, j - 1);
    }
  }

  lemma AskedNext(w: World, k: nat, now: int, interval: int, deadline: int)
    requires now < deadline
    ensures var attempts := Poll(w, k, now, interval, deadline).attempts;
            && attempts != [] && attempts[0].at == now
            && (1 < |attempts| <==> GoesOn(w.reply(k)) && ReadyAt(w, k, attempts[0]) < deadline)
            && (1 < |attempts| ==> attempts[1].at == ReadyAt(w, k, attempts[0]))
  {
    DecideExactly(w.reply(k));
    if Decide(w.reply(k)).Again? {
      PollAgain(w, k, now, interval, deadline);
      var next := NextInterval(w.reply(k), interval);
      FirstAsked(w, k + 1, After(w, k, now, next), next, deadline);
    }
  }

  lemma FirstAsked(w: World, k: nat, now: int, interval: int, deadline: int)
    ensures var attempts := Poll(w, k, now, interval, deadline).attempts;
            (attempts != [] <==> now < deadline) && (attempts != [] ==> attempts[0].at == now)
  {
  }

  /** 5 seconds and 5 minutes where the server leaves them out, its own numbers otherwise. */
  lemma DefaultsExactly(n: int)
    ensures DefaultInterval(0) == 5 && DefaultExpiry(0) == 5 * 60
    ensures n != 0 ==> DefaultInterval(n) == n && DefaultExpiry(n) == n
  {
  }
}
