/**
 The changes feed as a protocol: a linear history that only grows, a client that keeps a
 commit hash as its cursor, and requests that may wait on the event hub. Pushes interleave
 with every stage of a request.
 */
module ChangesFeed {
  import opened Options

  datatype Commit = Commit(hash: string, author: string, time: nat, subject: string)

  predicate HexDigit(c: char) {
    '0' <= c <= '9' || 'a' <= c <= 'f' || 'A' <= c <= 'F'
  }

  predicate IsHexHash(s: string) {
    4 <= |s| <= 40 && forall i :: 0 <= i < |s| ==> HexDigit(s[i])
  }

  method CheckHexHash(s: string) returns (ok: bool)
    ensures ok <==> IsHexHash(s)
  {
    if |s| < 4 || |s| > 40 {
      return false;
    }
    var i := 0;
    while i < |s|
      invariant 0 <= i <= |s|
      invariant forall j :: 0 <= j < i ==> HexDigit(s[j])
    {
      if !HexDigit(s[i]) {
        return false;
      }
      i := i + 1;
    }
    return true;
  }

  /** The history, oldest first: full hashes, no two alike. */
  ghost predicate Repository(log: seq<Commit>) {
    && (forall i :: 0 <= i < |log| ==> |log[i].hash| == 40 && IsHexHash(log[i].hash))
    && (forall i, j :: 0 <= i < j < |log| ==> log[i].hash != log[j].hash)
  }

  /** How much of the history a cursor has behind it; the empty cursor is before everything. */
  function At(log: seq<Commit>, cursor: string): (n: Option<nat>)
    ensures n.Some? ==> n.value <= |log|
    ensures n.Some? && cursor != "" ==> n.value > 0 && log[n.value - 1].hash == cursor
    ensures n.None? ==> cursor != "" && forall i :: 0 <= i < |log| ==> log[i].hash != cursor
    ensures cursor == "" ==> n == Some(0)
  {
    if cursor == "" then Some(0)
    else if log == [] then None
    else if log[|log| - 1].hash == cursor then Some(|log|)
    else At(log[..|log| - 1], cursor)
  }

  function Reverse<T>(s: seq<T>): (r: seq<T>)
    ensures |r| == |s|
    ensures forall i :: 0 <= i < |s| ==> r[i] == s[|s| - 1 - i]
  {
    seq(|s|, i requires 0 <= i < |s| => s[|s| - 1 - i])
  }

  /** Where a listing of at most `limit` commits of `from..upto` begins. */
  function First(from: nat, upto: nat, limit: nat): (lo: nat)
    requires from <= upto
    ensures from <= lo <= upto
  {
    if upto - from > limit then upto - limit else from
  }

  datatype Listing = Commits(commits: seq<Commit>) | UnknownSequence

  /** `git log [since..HEAD] -limit`: the newest first. */
  function GitLog(log: seq<Commit>, since: string, limit: nat): Listing {
    if since != "" && !IsHexHash(since) then UnknownSequence
    else match At(log, since)
      case None => UnknownSequence
      case Some(n) => Commits(Reverse(log[First(n, |log|, limit)..]))
  }

  /** The `limit` parameter: 50 by default, 500 at most. */
  function ClampLimit(requested: int): (limit: nat)
    ensures 1 <= limit <= 500
  {
    if requested <= 0 then 50 else if requested > 500 then 500 else requested
  }

  // ---- the protocol ----

  datatype Request =
    | Quiet
    | Asked(limit: nat, longPoll: bool)
    | CameBackEmpty(limit: nat)  // first query empty, not yet subscribed
    | Waiting(limit: nat)        // subscribed to the hub

  /** A reply that carried changes: the cursor it was asked from, the head it was listed at. */
  datatype Receipt = Receipt(from: nat, upto: nat, limit: nat, changes: seq<Commit>)

  datatype State = State(log: seq<Commit>, cursor: string, request: Request, receipts: seq<Receipt>)

  datatype Step =
    | Push(commit: Commit)
    | Ask(limit: int, longPoll: bool)
    | Query
    | Subscribe(ok: bool)
    | Wake
    | Timeout
    | Cancel

  /** The client's state after a reply: an empty `last_seq` leaves the cursor alone. */
  function Answer(s: State, limit: nat, changes: seq<Commit>): State {
    if changes == [] || At(s.log, s.cursor).None? then s.(request := Quiet)
    else s.(request := Quiet, cursor := changes[0].hash,
            receipts := s.receipts + [Receipt(At(s.log, s.cursor).value, |s.log|, limit, changes)])
  }

  function Fresh(log: seq<Commit>, c: Commit): bool {
    |c.hash| == 40 && IsHexHash(c.hash) && forall i :: 0 <= i < |log| ==> log[i].hash != c.hash
  }

  function RunQuery(s: State, limit: nat, longPoll: bool): State {
    match GitLog(s.log, s.cursor, limit)
    case UnknownSequence => s.(request := Quiet)
    case Commits(changes) =>
      if longPoll && changes == [] then s.(request := CameBackEmpty(limit)) else Answer(s, limit, changes)
  }

  /** One step; a step that does not apply changes nothing. */
  function Next(s: State, step: Step): State {
    match step
    case Push(c) => if Fresh(s.log, c) then s.(log := s.log + [c]) else s
    case Ask(limit, longPoll) => if s.request.Quiet? then s.(request := Asked(ClampLimit(limit), longPoll)) else s
    case Query => if s.request.Asked? then RunQuery(s, s.request.limit, s.request.longPoll) else s
    case Subscribe(ok) =>
      if s.request.CameBackEmpty? then s.(request := if ok then Waiting(s.request.limit) else Quiet) else s
    case Wake => if s.request.Waiting? then RunQuery(s, s.request.limit, false) else s
    case Timeout => if s.request.Waiting? then Answer(s, s.request.limit, []) else s
    case Cancel => s.(request := Quiet)
  }

  function Run(s: State, steps: seq<Step>): State {
    if steps == [] then s else Next(Run(s, steps[..|steps| - 1]), steps[|steps| - 1])
  }

  /** A new client of an existing repository. */
  function Start(log: seq<Commit>): State {
    State(log, "", Quiet, [])
  }

  // ---- the ledger ----

  /** Replies follow on from each other, and each carries the newest commits of its gap. */
  ghost predicate Chained(log: seq<Commit>, receipts: seq<Receipt>, n: nat) {
    if receipts == [] then n == 0
    else
      var r := receipts[|receipts| - 1];
      && r.upto == n && r.from < r.upto <= |log|
      && r.changes == Reverse(log[First(r.from, r.upto, r.limit)..r.upto])
      && Chained(log, receipts[..|receipts| - 1], r.from)
  }

  ghost predicate Inv(s: State) {
    && Repository(s.log)
    && At(s.log, s.cursor).Some?
    && Chained(s.log, s.receipts, At(s.log, s.cursor).value)
  }

  lemma {:induction false} AtUnique(log: seq<Commit>, n: nat)
    requires Repository(log) && 0 < n <= |log|
    ensures At(log, log[n - 1].hash) == Some(n)
  {
    var k := At(log, log[n - 1].hash);
    assert log[n - 1].hash != "";
    assert k.Some? && log[k.value - 1].hash == log[n - 1].hash;
  }

  lemma {:induction false} ChainedGrows(log: seq<Commit>, c: Commit, receipts: seq<Receipt>, n: nat)
    requires Chained(log, receipts, n)
    ensures Chained(log + [c], receipts, n)
  {
    if receipts != [] {
      var r := receipts[|receipts| - 1];
      ChainedGrows(log, c, receipts[..|receipts| - 1], r.from);
      var lo := First(r.from, r.upto, r.limit);
      assert (log + [c])[lo..r.upto] == log[lo..r.upto];
    }
  }

  lemma AtGrows(log: seq<Commit>, c: Commit, cursor: string)
    requires Repository(log + [c]) && At(log, cursor).Some?
    ensures At(log + [c], cursor) == At(log, cursor)
  {
    var n := At(log, cursor).value;
    if cursor != "" {
      assert (log + [c])[n - 1] == log[n - 1];
      AtUnique(log + [c], n);
    }
  }

  lemma PushKeeps(s: State, c: Commit)
    requires Inv(s) && Fresh(s.log, c)
    ensures Inv(s.(log := s.log + [c])) && At(s.log + [c], s.cursor) == At(s.log, s.cursor)
  {
    assert Repository(s.log + [c]);
    AtGrows(s.log, c, s.cursor);
    ChainedGrows(s.log, c, s.receipts, At(s.log, s.cursor).value);
  }

  /** The reply to a poll from position `n`. */
  function Listed(log: seq<Commit>, n: nat, limit: nat): Receipt
    requires n <= |log|
  {
    Receipt(n, |log|, limit, Reverse(log[First(n, |log|, limit)..]))
  }

  lemma ExactListing(s: State, limit: nat)
    requires Inv(s)
    ensures GitLog(s.log, s.cursor, limit) == Commits(Listed(s.log, At(s.log, s.cursor).value, limit).changes)
  {
    var n := At(s.log, s.cursor).value;
    assert s.cursor != "" ==> s.cursor == s.log[n - 1].hash;
  }

  lemma AnswerKeeps(s: State, limit: nat)
    requires Inv(s) && limit > 0 && At(s.log, s.cursor).value < |s.log|
    ensures var r := Listed(s.log, At(s.log, s.cursor).value, limit);
            var s' := Answer(s, limit, r.changes);
            && Inv(s') && At(s'.log, s'.cursor) == Some(|s.log|)
            && s' == s.(request := Quiet, cursor := s.log[|s.log| - 1].hash, receipts := s.receipts + [r])
  {
    ListedHead(s.log, At(s.log, s.cursor).value, limit);
    AtUnique(s.log, |s.log|);
    ChainedSnoc(s.log, s.receipts, At(s.log, s.cursor).value, limit);
  }

  lemma ListedHead(log: seq<Commit>, n: nat, limit: nat)
    requires n < |log| && limit > 0
    ensures var changes := Listed(log, n, limit).changes; changes != [] && changes[0] == log[|log| - 1]
  {
  }

  /** A listing from where the receipts end extends them to the head. */
  lemma ChainedSnoc(log: seq<Commit>, receipts: seq<Receipt>, n: nat, limit: nat)
    requires Chained(log, receipts, n) && n < |log|
    ensures Chained(log, receipts + [Listed(log, n, limit)], |log|)
  {
    assert (receipts + [Listed(log, n, limit)])[..|receipts|] == receipts;
    var lo := First(n, |log|, limit);
    assert log[lo..] == log[lo..|log|];
  }

  /** Every query is an exact listing, and leaves the cursor at the head it listed. */
  lemma QueryKeeps(s: State, limit: nat, longPoll: bool)
    requires Inv(s) && limit > 0
    ensures var s' := RunQuery(s, limit, longPoll);
            var n := At(s.log, s.cursor).value;
            && Inv(s') && At(s'.log, s'.cursor) == Some(|s.log|)
            && (n == |s.log| ==> s' == s.(request := if longPoll then CameBackEmpty(limit) else Quiet))
            && (n < |s.log| ==> s' == s.(request := Quiet, cursor := s.log[|s.log| - 1].hash,
                                         receipts := s.receipts + [Listed(s.log, n, limit)]))
  {
    ExactListing(s, limit);
    if At(s.log, s.cursor).value < |s.log| {
      AnswerKeeps(s, limit);
    }
  }

  predicate LimitOk(r: Request) {
    !r.Quiet? ==> r.limit > 0
  }

  /** The invariant is about the history, the cursor and the receipts. */
  lemma SameLedger(s: State, s': State)
    requires Inv(s) && s'.log == s.log && s'.cursor == s.cursor && s'.receipts == s.receipts
    ensures Inv(s')
  {
  }

  lemma QueryStepKeeps(s: State, limit: nat, longPoll: bool)
    requires Inv(s) && limit > 0
    ensures Inv(RunQuery(s, limit, longPoll)) && LimitOk(RunQuery(s, limit, longPoll).request)
  {
    QueryKeeps(s, limit, longPoll);
  }

  lemma StepKeeps(s: State, step: Step)
    requires Inv(s) && LimitOk(s.request)
    ensures Inv(Next(s, step)) && LimitOk(Next(s, step).request)
  {
    match step {
      case Push(c) => if Fresh(s.log, c) { PushKeeps(s, c); }
      case Query => if s.request.Asked? { QueryStepKeeps(s, s.request.limit, s.request.longPoll); }
      case Wake => if s.request.Waiting? { QueryStepKeeps(s, s.request.limit, false); }
      case Ask(_, _) => SameLedger(s, Next(s, step));
      case Subscribe(_) => SameLedger(s, Next(s, step));
      case Timeout => SameLedger(s, Next(s, step));
      case Cancel => SameLedger(s, Next(s, step));
    }
  }

  lemma {:induction false} RunKeeps(s: State, steps: seq<Step>)
    requires Inv(s) && LimitOk(s.request)
    ensures Inv(Run(s, steps)) && LimitOk(Run(s, steps).request)
  {
    if steps != [] {
      RunKeeps(s, steps[..|steps| - 1]);
      StepKeeps(Run(s, steps[..|steps| - 1]), steps[|steps| - 1]);
    }
  }

  // ---- what the client has seen ----

  /** Everything delivered, each reply turned oldest first. */
  function Delivered(receipts: seq<Receipt>): seq<Commit> {
    if receipts == [] then []
    else Delivered(receipts[..|receipts| - 1]) + Reverse(receipts[|receipts| - 1].changes)
  }

  /** Position `p` was among the oldest of a gap longer than the limit. */
  ghost predicate Truncated(receipts: seq<Receipt>, p: nat) {
    exists i :: 0 <= i < |receipts| && receipts[i].from <= p < receipts[i].upto - receipts[i].limit
  }

  function Interval(lo: nat, hi: nat): (ps: seq<nat>)
    requires lo <= hi
    ensures |ps| == hi - lo && forall i :: 0 <= i < |ps| ==> ps[i] == lo + i
  {
    seq(hi - lo, i => lo + i)
  }

  /** The positions in the history of what was delivered. */
  function Positions(receipts: seq<Receipt>): seq<nat> {
    if receipts == [] then []
    else
      var r := receipts[|receipts| - 1];
      Positions(receipts[..|receipts| - 1])
      + (if r.from <= r.upto then Interval(First(r.from, r.upto, r.limit), r.upto) else [])
  }

  ghost predicate Increasing(ps: seq<nat>) {
    forall i, j :: 0 <= i < j < |ps| ==> ps[i] < ps[j]
  }

  lemma {:induction false} PositionsIncrease(log: seq<Commit>, receipts: seq<Receipt>, n: nat)
    requires Chained(log, receipts, n)
    ensures var ps := Positions(receipts);
            Increasing(ps) && n <= |log| && forall i :: 0 <= i < |ps| ==> ps[i] < n
  {
    if receipts != [] {
      var r := receipts[|receipts| - 1];
      PositionsIncrease(log, receipts[..|receipts| - 1], r.from);
    }
  }

  /** What was delivered is the history at those positions. */
  ghost predicate Located(log: seq<Commit>, ps: seq<nat>, cs: seq<Commit>) {
    |cs| == |ps| && forall i :: 0 <= i < |ps| ==> ps[i] < |log| && cs[i] == log[ps[i]]
  }

  lemma LocatedOnward(log: seq<Commit>, ps: seq<nat>, cs: seq<Commit>, ps': seq<nat>, cs': seq<Commit>)
    requires Located(log, ps, cs) && Located(log, ps', cs')
    ensures Located(log, ps + ps', cs + cs')
  {
  }

  lemma LocatedSlice(log: seq<Commit>, lo: nat, hi: nat)
    requires lo <= hi <= |log|
    ensures Located(log, Interval(lo, hi), Reverse(Reverse(log[lo..hi])))
  {
  }

  lemma {:induction false} PositionsExact(log: seq<Commit>, receipts: seq<Receipt>, n: nat)
    requires Chained(log, receipts, n)
    ensures n <= |log| && Located(log, Positions(receipts), Delivered(receipts))
  {
    if receipts != [] {
      var r, front := receipts[|receipts| - 1], receipts[..|receipts| - 1];
      PositionsExact(log, front, r.from);
      LocatedSlice(log, First(r.from, r.upto, r.limit), r.upto);
      LocatedOnward(log, Positions(front), Delivered(front),
                    Interval(First(r.from, r.upto, r.limit), r.upto), Reverse(r.changes));
    }
  }

  lemma TruncatedLast(receipts: seq<Receipt>, p: nat)
    requires receipts != []
    ensures var r := receipts[|receipts| - 1];
            Truncated(receipts, p) <==>
            Truncated(receipts[..|receipts| - 1], p) || r.from <= p < r.upto - r.limit
  {
    var front := receipts[..|receipts| - 1];
    if Truncated(front, p) {
      var i :| 0 <= i < |front| && front[i].from <= p < front[i].upto - front[i].limit;
      assert receipts[i] == front[i];
    }
    if Truncated(receipts, p) {
      var i :| 0 <= i < |receipts| && receipts[i].from <= p < receipts[i].upto - receipts[i].limit;
      if i < |front| {
        assert front[i] == receipts[i];
      }
    }
  }

  lemma {:induction false} TruncatedBelow(log: seq<Commit>, receipts: seq<Receipt>, n: nat, p: nat)
    requires Chained(log, receipts, n) && Truncated(receipts, p)
    ensures p < n
  {
    TruncatedLast(receipts, p);
    var r := receipts[|receipts| - 1];
    if Truncated(receipts[..|receipts| - 1], p) {
      TruncatedBelow(log, receipts[..|receipts| - 1], r.from, p);
    }
  }

  /** A position behind the cursor was delivered unless a limit cut it off. */
  lemma {:induction false} DeliveredIff(log: seq<Commit>, receipts: seq<Receipt>, n: nat, p: nat)
    requires Chained(log, receipts, n)
    ensures p in Positions(receipts) <==> p < n && !Truncated(receipts, p)
  {
    if receipts != [] {
      var r, front := receipts[|receipts| - 1], receipts[..|receipts| - 1];
      DeliveredIff(log, front, r.from, p);
      TruncatedLast(receipts, p);
      PositionsLast(receipts, p);
      if Truncated(front, p) {
        TruncatedBelow(log, front, r.from, p);
      }
    }
  }

  lemma PositionsLast(receipts: seq<Receipt>, p: nat)
    requires receipts != []
    requires receipts[|receipts| - 1].from < receipts[|receipts| - 1].upto
    ensures var r := receipts[|receipts| - 1];
            p in Positions(receipts) <==>
            p in Positions(receipts[..|receipts| - 1]) || First(r.from, r.upto, r.limit) <= p < r.upto
  {
    var r := receipts[|receipts| - 1];
    var mine := Interval(First(r.from, r.upto, r.limit), r.upto);
    InInterval(First(r.from, r.upto, r.limit), r.upto, p);
    assert Positions(receipts) == Positions(receipts[..|receipts| - 1]) + mine;
  }

  lemma InInterval(lo: nat, hi: nat, p: nat)
    requires lo <= hi
    ensures p in Interval(lo, hi) <==> lo <= p < hi
  {
    if lo <= p < hi {
      assert Interval(lo, hi)[p - lo] == p;
    }
  }

  /**
   Every run, of any mix of plain and long polls: what the client received is the history at
   strictly increasing positions (so in order, and nothing twice); a commit behind the cursor
   is missing exactly when it was among the oldest of a gap longer than the limit; every
   other commit is still ahead of the cursor.
   */
  lemma FeedExact(log: seq<Commit>, steps: seq<Step>)
    requires Repository(log)
    ensures var s := Run(Start(log), steps);
            var ps := Positions(s.receipts);
            && At(s.log, s.cursor).Some?
            && Increasing(ps)
            && Located(s.log, ps, Delivered(s.receipts))
            && (forall p :: 0 <= p < |s.log| ==>
                  (p in ps <==> p < At(s.log, s.cursor).value && !Truncated(s.receipts, p)))
  {
    RunKeeps(Start(log), steps);
    var s := Run(Start(log), steps);
    var n := At(s.log, s.cursor).value;
    PositionsIncrease(s.log, s.receipts, n);
    PositionsExact(s.log, s.receipts, n);
    forall p | 0 <= p < |s.log|
      ensures p in Positions(s.receipts) <==> p < n && !Truncated(s.receipts, p)
    {
      DeliveredIff(s.log, s.receipts, n, p);
    }
  }

  /** No gap was longer than its limit. */
  predicate NoGap(receipts: seq<Receipt>) {
    forall i :: 0 <= i < |receipts| ==> receipts[i].upto - receipts[i].from <= receipts[i].limit
  }

  lemma {:induction false} NoGapConcatenates(log: seq<Commit>, receipts: seq<Receipt>, n: nat)
    requires Chained(log, receipts, n) && NoGap(receipts)
    ensures n <= |log| && Delivered(receipts) == log[..n]
  {
    if receipts != [] {
      var r, front := receipts[|receipts| - 1], receipts[..|receipts| - 1];
      assert NoGap(front) by {
        assert forall i :: 0 <= i < |front| ==> front[i] == receipts[i];
      }
      NoGapConcatenates(log, front, r.from);
      assert Reverse(r.changes) == log[r.from..r.upto];
      assert log[..r.upto] == log[..r.from] + log[r.from..r.upto];
    }
  }

  /** With no such gap the replies, each reversed, concatenate to the history itself. */
  lemma FeedIsTheLog(log: seq<Commit>, steps: seq<Step>)
    requires Repository(log) && NoGap(Run(Start(log), steps).receipts)
    ensures var s := Run(Start(log), steps);
            At(s.log, s.cursor).Some? && Delivered(s.receipts) == s.log[..At(s.log, s.cursor).value]
  {
    RunKeeps(Start(log), steps);
    var s := Run(Start(log), steps);
    NoGapConcatenates(s.log, s.receipts, At(s.log, s.cursor).value);
  }

  /** The next answered poll delivers all that is ahead, up to its limit, and reaches the head. */
  lemma PollCatchesUp(log: seq<Commit>, steps: seq<Step>, limit: int, longPoll: bool)
    requires Repository(log)
    requires var s := Run(Start(log), steps);
             s.request == Quiet && At(s.log, s.cursor).Some? && At(s.log, s.cursor).value < |s.log|
    ensures var s := Run(Start(log), steps);
            var n := At(s.log, s.cursor).value;
            var s' := Next(Next(s, Ask(limit, longPoll)), Query);
            && s'.request == Quiet && At(s'.log, s'.cursor) == Some(|s.log|)
            && Delivered(s'.receipts)
               == Delivered(s.receipts) + s.log[First(n, |s.log|, ClampLimit(limit))..]
  {
    RunKeeps(Start(log), steps);
    var s := Run(Start(log), steps);
    var l := ClampLimit(limit);
    var n := At(s.log, s.cursor).value;
    var asked := s.(request := Asked(l, longPoll));
    QueryKeeps(asked, l, longPoll);
    assert Next(asked, Query).receipts == s.receipts + [Listed(s.log, n, l)];
    DeliveredSnoc(s.receipts, s.log, n, l);
  }

  lemma DeliveredSnoc(receipts: seq<Receipt>, log: seq<Commit>, n: nat, limit: nat)
    requires n <= |log|
    ensures Delivered(receipts + [Listed(log, n, limit)]) == Delivered(receipts) + log[First(n, |log|, limit)..]
  {
    var r := Listed(log, n, limit);
    assert (receipts + [r])[..|receipts|] == receipts;
    assert Reverse(r.changes) == log[First(n, |log|, limit)..];
  }

  /**
   The window between the first query and the subscription: a commit pushed there wakes
   nobody and the reply is empty, but it stays ahead of the cursor and is exactly what the
   next poll delivers.
   */
  lemma MissedWakeupIsNotLost(s: State, c: Commit, limit: int, limit': int)
    requires Inv(s) && s.request == Quiet && At(s.log, s.cursor) == Some(|s.log|) && Fresh(s.log, c)
    ensures var empty := Next(Next(s, Ask(limit, true)), Query);
            var timedOut := Next(Next(Next(empty, Push(c)), Subscribe(true)), Timeout);
            && timedOut == s.(log := s.log + [c])
            && At(timedOut.log, timedOut.cursor) == Some(|s.log|)
            && Next(Next(timedOut, Ask(limit', false)), Query).receipts
               == s.receipts + [Receipt(|s.log|, |s.log| + 1, ClampLimit(limit'), [c])]
  {
    EmptyPoll(s, limit);
    PushKeeps(s, c);
    MissedPush(s, c, ClampLimit(limit));
    PollAfter(s.(log := s.log + [c]), c, limit');
  }

  lemma EmptyPoll(s: State, limit: int)
    requires Inv(s) && s.request == Quiet && At(s.log, s.cursor) == Some(|s.log|)
    ensures Next(Next(s, Ask(limit, true)), Query) == s.(request := CameBackEmpty(ClampLimit(limit)))
  {
    QueryKeeps(s.(request := Asked(ClampLimit(limit), true)), ClampLimit(limit), true);
  }

  lemma MissedPush(s: State, c: Commit, limit: nat)
    requires s.request == Quiet && Fresh(s.log, c)
    ensures Next(Next(Next(s.(request := CameBackEmpty(limit)), Push(c)), Subscribe(true)), Timeout)
            == s.(log := s.log + [c])
  {
  }

  lemma PollAfter(s: State, c: Commit, limit: int)
    requires Inv(s) && s.request == Quiet && s.log != [] && s.log[|s.log| - 1] == c
    requires At(s.log, s.cursor) == Some(|s.log| - 1)
    ensures Next(Next(s, Ask(limit, false)), Query).receipts
            == s.receipts + [Receipt(|s.log| - 1, |s.log|, ClampLimit(limit), [c])]
  {
    var l := ClampLimit(limit);
    var asked := s.(request := Asked(l, false));
    QueryKeeps(asked, l, false);
    ListedOne(s.log, l);
    assert Next(asked, Query).receipts == s.receipts + [Listed(s.log, |s.log| - 1, l)];
  }

  lemma ListedOne(log: seq<Commit>, limit: nat)
    requires log != [] && limit > 0
    ensures Listed(log, |log| - 1, limit) == Receipt(|log| - 1, |log|, limit, [log[|log| - 1]])
  {
    assert log[|log| - 1..] == [log[|log| - 1]];
  }

  // ---- a woken long poll ----

  /**
   In every run, a request that waits on the hub queries again when it is woken: behind the
   head it ends with a reply that delivers all that is ahead, up to its limit, and reaches
   the head; at the head it ends empty.
   */
  lemma WakeDelivers(log: seq<Commit>, steps: seq<Step>)
    requires Repository(log) && Run(Start(log), steps).request.Waiting?
    ensures var s := Run(Start(log), steps);
            var s' := Next(s, Wake);
            && At(s.log, s.cursor).Some? && s'.request == Quiet && s'.log == s.log
            && At(s'.log, s'.cursor) == Some(|s.log|)
            && Delivered(s'.receipts)
               == Delivered(s.receipts) + s.log[First(At(s.log, s.cursor).value, |s.log|, s.request.limit)..]
  {
    RunKeeps(Start(log), steps);
    var s := Run(Start(log), steps);
    var n := At(s.log, s.cursor).value;
    WokenKeeps(s);
    if n < |s.log| {
      DeliveredSnoc(s.receipts, s.log, n, s.request.limit);
    }
  }

  lemma WokenKeeps(s: State)
    requires Inv(s) && s.request.Waiting? && s.request.limit > 0
    ensures var n, limit := At(s.log, s.cursor).value, s.request.limit;
            && At(Next(s, Wake).log, Next(s, Wake).cursor) == Some(|s.log|)
            && (n == |s.log| ==> Next(s, Wake) == s.(request := Quiet))
            && (n < |s.log| ==> Next(s, Wake) == s.(request := Quiet, cursor := s.log[|s.log| - 1].hash,
                                                   receipts := s.receipts + [Listed(s.log, n, limit)]))
  {
    QueryKeeps(s, s.request.limit, false);
  }

  /** A commit that is pushed during the wait: the woken poll replies with exactly it. */
  lemma PushDuringWait(s: State, c: Commit, limit: int)
    requires Inv(s) && s.request == Quiet && At(s.log, s.cursor) == Some(|s.log|) && Fresh(s.log, c)
    ensures var waiting := Next(Next(Next(s, Ask(limit, true)), Query), Subscribe(true));
            var woken := Next(Next(waiting, Push(c)), Wake);
            && waiting.request.Waiting? && woken.request == Quiet && woken.cursor == c.hash
            && woken.receipts == s.receipts + [Receipt(|s.log|, |s.log| + 1, ClampLimit(limit), [c])]
  {
    EmptyPoll(s, limit);
    WaitPush(s, c, ClampLimit(limit));
    PushKeeps(s, c);
    WokenByPush(s.(log := s.log + [c], request := Waiting(ClampLimit(limit))), c);
  }

  lemma WaitPush(s: State, c: Commit, limit: nat)
    requires Fresh(s.log, c)
    ensures Next(s.(request := CameBackEmpty(limit)), Subscribe(true)) == s.(request := Waiting(limit))
    ensures Next(s.(request := Waiting(limit)), Push(c)) == s.(log := s.log + [c], request := Waiting(limit))
  {
  }

  lemma WokenByPush(s: State, c: Commit)
    requires Inv(s) && s.request.Waiting? && s.request.limit > 0 && s.log != [] && s.log[|s.log| - 1] == c
    requires At(s.log, s.cursor) == Some(|s.log| - 1)
    ensures Next(s, Wake) == s.(request := Quiet, cursor := c.hash,
                                receipts := s.receipts + [Receipt(|s.log| - 1, |s.log|, s.request.limit, [c])])
  {
    WokenKeeps(s);
    ListedOne(s.log, s.request.limit);
  }

  // ---- limits ----

  /** 50 where none is asked for, 500 where more is, and what is asked for otherwise. */
  lemma ClampExactly(requested: int)
    ensures 1 <= requested <= 500 ==> ClampLimit(requested) == requested
    ensures requested < 1 ==> ClampLimit(requested) == 50
    ensures requested > 500 ==> ClampLimit(requested) == 500
  {
  }

  // ---- what is refused ----

  lemma HexHashExactly(s: string)
    ensures IsHexHash(s) <==> 4 <= |s| <= 40 && forall i :: 0 <= i < |s| ==> s[i] in "0123456789abcdefABCDEF"
  {
    forall i | 0 <= i < |s| ensures HexDigit(s[i]) <==> s[i] in "0123456789abcdefABCDEF" {
      HexDigitExactly(s[i]);
    }
  }

  lemma HexDigitExactly(c: char)
    ensures HexDigit(c) <==> c in "0123456789abcdefABCDEF"
  {
    var all := "0123456789abcdefABCDEF";
    if '0' <= c <= '9' {
      assert all[c as int - 48] == c;
    } else if 'a' <= c <= 'f' {
      assert all[c as int - 87] == c;
    } else if 'A' <= c <= 'F' {
      assert all[c as int - 49] == c;
    }
  }

  /** A query is answered for the empty cursor and for the hash of a commit, and refused for anything else. */
  lemma AnsweredExactly(log: seq<Commit>, since: string, limit: nat)
    requires Repository(log)
    ensures GitLog(log, since, limit).Commits? <==> since == "" || exists i :: 0 <= i < |log| && log[i].hash == since
  {
    if i :| 0 <= i < |log| && log[i].hash == since {
      AtUnique(log, i + 1);
    }
  }

  /** A wait that times out, a hub that is full and a client that is gone end the request, and change nothing. */
  lemma EndsEmpty(s: State)
    ensures s.request.Waiting? ==> Next(s, Timeout) == s.(request := Quiet)
    ensures s.request.CameBackEmpty? ==> Next(s, Subscribe(false)) == s.(request := Quiet)
    ensures Next(s, Cancel) == s.(request := Quiet)
  {
  }

  /** What is no hash is refused before git is asked, whatever the history. */
  lemma NotHexRefused(log: seq<Commit>, since: string, limit: nat)
    requires since != ""
    requires |since| < 4 || |since| > 40 || exists i :: 0 <= i < |since| && since[i] !in "0123456789abcdefABCDEF"
    ensures GitLog(log, since, limit) == UnknownSequence
  {
    HexHashExactly(since);
  }
}
