/**
 The analytics writer as a state machine: any number of `Record` callers, the bounded
 channel, and the one consumer goroutine, in every interleaving.
 */
module WriterPipeline {
  import opened CounterTables
  import Dedup

  /** `defaultChanCapacity`. */
  const CAPACITY := 1024
  /** A drained buffer of this size is flushed at once. */
  const BATCH := 100

  /** Where the consumer goroutine stands. */
  datatype Phase =
    | Idle      // at the outer select
    | Batching  // reading as many events as are available
    | Evicting  // after the tick's flush, before the eviction
    | Draining  // saw `done`, emptying the channel
    | Stopped

  datatype State = State(
    dedup: map<Dedup.Key, int>,
    pending: multiset<Event>,  // callers between the duplicate check and the send
    ch: seq<Event>,
    buf: seq<Event>,
    phase: Phase,
    closed: bool,
    tables: Tables,
    // history
    ops: seq<Dedup.Op>,
    entered: seq<Event>,       // everything the channel accepted, in order
    batches: seq<Batch>,       // every call of flush
    duplicates: nat,
    dropped: nat,
    calls: nat)

  datatype Step =
    | Check(event: Event, key: Dedup.Key, now: int)
    | Send(event: Event)
    | Receive
    | EndBatch(batch: Batch)
    | Tick(batch: Batch)
    | Evict(now: int)
    | Close
    | NoticeClose
    | EndDrain(batch: Batch)

  const INIT := State(map[], multiset{}, [], [], Idle, false, NO_ROWS, [], [], [], 0, 0, 0)

  /** Only page views of a known actor are subject to de-duplication. */
  predicate Deduplicated(e: Event) {
    e.PageView? && e.actor != ""
  }

  function Events(xs: seq<Executed>): (es: seq<Event>)
    ensures |es| == |xs|
  {
    seq(|xs|, i requires 0 <= i < |xs| => xs[i].event)
  }

  /** The consumer hands the whole buffer to `flush`. */
  predicate FlushesBuffer(s: State, b: Batch) {
    Events(b.executed) == s.buf
  }

  predicate Enabled(s: State, step: Step) {
    match step
    case Check(_, _, _) => true
    case Send(e) => e in s.pending
    case Receive => s.ch != [] && (s.phase == Idle || s.phase == Batching || s.phase == Draining)
    case EndBatch(b) => s.phase == Batching && s.ch == [] && (|s.buf| >= BATCH ==> FlushesBuffer(s, b))
    case Tick(b) => s.phase == Idle && (s.buf != [] ==> FlushesBuffer(s, b))
    case Evict(_) => s.phase == Evicting
    case Close => true
    case NoticeClose => s.phase == Idle && s.closed
    case EndDrain(b) => s.phase == Draining && s.ch == [] && (s.buf != [] ==> FlushesBuffer(s, b))
  }

  /** `flush(buf); buf = buf[:0]`, whether or not the transaction commits. */
  function Flushed(s: State, b: Batch): State {
    s.(buf := [], tables := Flush(s.tables, b), batches := s.batches + [b])
  }

  function AfterCheck(s: State, e: Event, key: Dedup.Key, now: int): State {
    if Deduplicated(e) then
      var s' := s.(calls := s.calls + 1, dedup := Dedup.Checked(s.dedup, key, now),
                   ops := s.ops + [Dedup.Op.Check(key, now)]);
      if Dedup.IsDup(s.dedup, key, now) then s'.(duplicates := s.duplicates + 1)
      else s'.(pending := s.pending + multiset{e})
    else
      s.(calls := s.calls + 1, pending := s.pending + multiset{e})
  }

  function AfterSend(s: State, e: Event): State {
    if |s.ch| < CAPACITY then
      s.(pending := s.pending - multiset{e}, ch := s.ch + [e], entered := s.entered + [e])
    else
      s.(pending := s.pending - multiset{e}, dropped := s.dropped + 1)
  }

  /** One step; a step that is not enabled changes nothing. */
  function Next(s: State, step: Step): State {
    if !Enabled(s, step) then s else
    match step
    case Check(e, key, now) => AfterCheck(s, e, key, now)
    case Send(e) => AfterSend(s, e)
    case Receive =>
      s.(buf := s.buf + [s.ch[0]], ch := s.ch[1..], phase := if s.phase == Idle then Batching else s.phase)
    case EndBatch(b) => (if |s.buf| >= BATCH then Flushed(s, b) else s).(phase := Idle)
    case Tick(b) => (if s.buf != [] then Flushed(s, b) else s).(phase := Evicting)
    case Evict(now) => s.(dedup := Dedup.Evicted(s.dedup, now), ops := s.ops + [Dedup.Op.Evict(now)], phase := Idle)
    case Close => s.(closed := true)
    case NoticeClose => s.(phase := Draining)
    case EndDrain(b) => (if s.buf != [] then Flushed(s, b) else s).(phase := Stopped)
  }

  /** A run of the system from `s`. */
  function Run(s: State, steps: seq<Step>): State {
    if steps == [] then s else Next(Run(s, steps[..|steps| - 1]), steps[|steps| - 1])
  }

  /** The events handed to `flush`, in order. */
  function Handed(bs: seq<Batch>): seq<Event> {
    if bs == [] then [] else Handed(bs[..|bs| - 1]) + Events(bs[|bs| - 1].executed)
  }

  ghost predicate Inv(s: State) {
    // nothing is lost, duplicated or reordered between the channel and flush
    && s.entered == Handed(s.batches) + s.buf + s.ch
    && |s.ch| <= CAPACITY
    && (s.phase == Idle ==> |s.buf| < BATCH)
    && (s.phase == Evicting || s.phase == Stopped ==> s.buf == [])
    && (s.phase == Draining || s.phase == Stopped ==> s.closed)
    && (forall i :: 0 <= i < |s.batches| ==> s.batches[i].executed != [])
    // the tables and the map are what the history says
    && s.tables == FlushAll(NO_ROWS, s.batches)
    && s.dedup == Dedup.After(s.ops)
    // every call ends as a duplicate, dropped, in flight or entered
    && s.calls == s.duplicates + s.dropped + |s.pending| + |s.entered|
  }

  lemma CheckKeeps(s: State, e: Event, key: Dedup.Key, now: int)
    requires Inv(s)
    ensures Inv(AfterCheck(s, e, key, now))
  {
    Dedup.AfterSnoc(s.ops, Dedup.Op.Check(key, now));
    OneMorePending(s.pending, e);
  }

  lemma OneMorePending(pending: multiset<Event>, e: Event)
    ensures |pending + multiset{e}| == |pending| + 1
  {
  }

  lemma SendKeeps(s: State, e: Event)
    requires Inv(s) && e in s.pending
    ensures Inv(AfterSend(s, e))
  {
    assert |s.pending - multiset{e}| == |s.pending| - 1;
    var before := Handed(s.batches) + s.buf;
    assert before + s.ch + [e] == before + (s.ch + [e]);
  }

  lemma ReceiveKeeps(s: State)
    requires Inv(s) && Enabled(s, Receive)
    ensures Inv(Next(s, Receive))
  {
    var done := Handed(s.batches);
    assert done + s.buf + s.ch == done + (s.buf + [s.ch[0]]) + s.ch[1..];
  }

  lemma EvictKeeps(s: State, now: int)
    requires Inv(s) && Enabled(s, Evict(now))
    ensures Inv(Next(s, Evict(now)))
  {
    Dedup.AfterSnoc(s.ops, Dedup.Op.Evict(now));
  }

  /** A flush moves the buffer, in order, to what was handed over. */
  lemma FlushedKeeps(s: State, b: Batch)
    requires Inv(s) && s.buf != [] && FlushesBuffer(s, b)
    ensures var s' := Flushed(s, b);
            && s'.entered == Handed(s'.batches) + s'.ch
            && s'.tables == FlushAll(NO_ROWS, s'.batches)
            && forall i :: 0 <= i < |s'.batches| ==> s'.batches[i].executed != []
  {
    assert (s.batches + [b])[..|s.batches|] == s.batches;
  }

  /** The three places that flush differ only in when they do and where they go next. */
  lemma EmptyingKeeps(s: State, b: Batch, phase: Phase)
    requires Inv(s) && (s.buf != [] ==> FlushesBuffer(s, b))
    requires phase == Draining || phase == Stopped ==> s.closed
    ensures Inv((if s.buf != [] then Flushed(s, b) else s).(phase := phase))
  {
    if s.buf != [] {
      FlushedKeeps(s, b);
      assert Handed(s.batches + [b]) + [] == Handed(s.batches + [b]);
    }
  }

  lemma StepKeeps(s: State, step: Step)
    requires Inv(s)
    ensures Inv(Next(s, step))
  {
    if Enabled(s, step) {
      match step {
        case Check(e, key, now) => CheckKeeps(s, e, key, now);
        case Send(e) => SendKeeps(s, e);
        case Receive => ReceiveKeeps(s);
        case EndBatch(b) => if |s.buf| >= BATCH { EmptyingKeeps(s, b, Idle); }
        case Tick(b) => EmptyingKeeps(s, b, Evicting);
        case Evict(now) => EvictKeeps(s, now);
        case Close =>
        case NoticeClose =>
        case EndDrain(b) => EmptyingKeeps(s, b, Stopped);
      }
    }
  }

  /** The invariant holds in every state of every run. */
  lemma {:induction false} RunKeeps(s: State, steps: seq<Step>)
    requires Inv(s)
    ensures Inv(Run(s, steps))
  {
    if steps != [] {
      RunKeeps(s, steps[..|steps| - 1]);
      StepKeeps(Run(s, steps[..|steps| - 1]), steps[|steps| - 1]);
    }
  }

  /** Channel order and bounds, for every schedule from the initial state. */
  lemma EveryRun(steps: seq<Step>)
    ensures var s := Run(INIT, steps);
            && s.entered == Handed(s.batches) + s.buf + s.ch
            && |s.ch| <= 1024
            && (s.phase == Idle ==> |s.buf| <= 99)
            && s.calls == s.duplicates + s.dropped + |s.pending| + |s.entered|
  {
    RunKeeps(INIT, steps);
  }

  /**
   Shutdown: when the consumer stops, everything that had entered the channel has been
   handed to flush, once and in order; later callers can still fill the channel, but
   nothing is handed to flush again.
   */
  lemma {:induction false} ShutdownHandsOver(steps: seq<Step>, b: Batch, later: seq<Step>)
    requires var s := Run(INIT, steps); s.phase == Draining && Enabled(s, EndDrain(b))
    ensures var s := Run(INIT, steps);
            var stopped := Next(s, EndDrain(b));
            var end := Run(stopped, later);
            && Handed(stopped.batches) == stopped.entered == s.entered
            && end.phase == Stopped
            && end.batches == stopped.batches
            && end.entered == Handed(end.batches) + end.ch
  {
    RunKeeps(INIT, steps);
    var s := Run(INIT, steps);
    StepKeeps(s, EndDrain(b));
    var stopped := Next(s, EndDrain(b));
    assert Handed(stopped.batches) + [] + [] == Handed(stopped.batches);
    RunKeeps(stopped, later);
    StaysStopped(stopped, later);
    var end := Run(stopped, later);
    assert Handed(end.batches) + [] == Handed(end.batches);
  }

  lemma {:induction false} StaysStopped(s: State, steps: seq<Step>)
    requires s.phase == Stopped
    ensures Run(s, steps).phase == Stopped && Run(s, steps).batches == s.batches
  {
    if steps != [] {
      StaysStopped(s, steps[..|steps| - 1]);
    }
  }

  lemma {:induction false} OpsGrow(s: State, steps: seq<Step>)
    ensures s.ops <= Run(s, steps).ops
  {
    if steps != [] {
      OpsGrow(s, steps[..|steps| - 1]);
      StepOpsGrow(Run(s, steps[..|steps| - 1]), steps[|steps| - 1]);
    }
  }

  lemma StepOpsGrow(s: State, step: Step)
    ensures s.ops <= Next(s, step).ops
  {
  }

  lemma {:induction false} RunAppend(s: State, a: seq<Step>, b: seq<Step>)
    ensures Run(s, a + b) == Run(Run(s, a), b)
  {
    if b == [] {
      assert a + b == a;
    } else {
      assert (a + b)[..|a + b| - 1] == a + b[..|b| - 1];
      RunAppend(s, a, b[..|b| - 1]);
    }
  }

  /**
   The stamp is written before the enqueue is tried: an event dropped on a full channel
   still suppresses every event of its key for a whole window, whatever happens between the
   check and the send, and after the send.
   */
  lemma DroppedStillSuppresses(s: State, e: Event, e': Event, key: Dedup.Key, now: int, now': int,
                               between: seq<Step>, later: seq<Step>)
    requires Inv(s) && Deduplicated(e) && Deduplicated(e') && !Dedup.IsDup(s.dedup, key, now)
    requires var full := Run(Next(s, Check(e, key, now)), between); e in full.pending && |full.ch| == CAPACITY
    requires now' - now < Dedup.WINDOW
    requires var full := Run(Next(s, Check(e, key, now)), between);
             Dedup.NeverOvertaken(Run(Next(full, Send(e)), later).ops + [Dedup.Op.Check(key, now')])
    ensures var full := Run(Next(s, Check(e, key, now)), between);
            var dropped := Next(full, Send(e));
            var end := Run(dropped, later);
            && dropped.entered == full.entered && dropped.dropped == full.dropped + 1
            && Next(end, Check(e', key, now')).duplicates == end.duplicates + 1
            && Next(end, Check(e', key, now')).pending == end.pending
  {
    var stamped := Next(s, Check(e, key, now));
    var full := Run(stamped, between);
    var dropped := Next(full, Send(e));
    StepKeeps(s, Check(e, key, now));
    RunGrows(stamped, between);
    StepKeeps(full, Send(e));
    StepOpsGrow(full, Send(e));
    RunGrows(dropped, later);
    StampStays(s, e, key, now, Run(dropped, later), now');
    CheckedDuplicate(Run(dropped, later), e', key, now');
    SendDrops(full, e);
  }

  lemma RunGrows(s: State, steps: seq<Step>)
    requires Inv(s)
    ensures Inv(Run(s, steps)) && s.ops <= Run(s, steps).ops
  {
    RunKeeps(s, steps);
    OpsGrow(s, steps);
  }

  lemma SendDrops(s: State, e: Event)
    requires e in s.pending && |s.ch| == CAPACITY
    ensures Next(s, Send(e)).entered == s.entered && Next(s, Send(e)).dropped == s.dropped + 1
  {
  }

  /** A stamp that was written decides every later check within the window. */
  lemma StampStays(s: State, e: Event, key: Dedup.Key, now: int, end: State, now': int)
    requires Inv(s) && Inv(end) && Deduplicated(e) && !Dedup.IsDup(s.dedup, key, now)
    requires Next(s, Check(e, key, now)).ops <= end.ops && now' - now < Dedup.WINDOW
    requires Dedup.NeverOvertaken(end.ops + [Dedup.Op.Check(key, now')])
    ensures Dedup.IsDup(end.dedup, key, now')
  {
    var op := Dedup.Op.Check(key, now);
    assert Next(s, Check(e, key, now)).ops == s.ops + [op];
    StampedHistory(s.ops, op, end.ops, now');
  }

  lemma StampedHistory(before: seq<Dedup.Op>, op: Dedup.Op, all: seq<Dedup.Op>, now': int)
    requires op.Check? && before + [op] <= all && !Dedup.IsDup(Dedup.After(before), op.key, op.now)
    requires now' - op.now < Dedup.WINDOW && Dedup.NeverOvertaken(all + [Dedup.Op.Check(op.key, now')])
    ensures Dedup.IsDup(Dedup.After(all), op.key, now')
  {
    var ops, i := all + [Dedup.Op.Check(op.key, now')], |before|;
    assert ops[i] == (before + [op])[i] && ops[..i] == before;
    assert Dedup.Passes(ops, i);
    assert ops[..|all|] == all;
    Dedup.EvictionUnobservable(ops, |all|);
    assert Dedup.SeenWithinWindow(ops, |all|);
  }

  lemma CheckedDuplicate(s: State, e: Event, key: Dedup.Key, now: int)
    requires Deduplicated(e) && Dedup.IsDup(s.dedup, key, now)
    ensures var s' := Next(s, Check(e, key, now)); s'.duplicates == s.duplicates + 1 && s'.pending == s.pending
  {
  }

  /** In a run whose checks are not overtaken, the map answers as an unbounded history would. */
  lemma DedupRefinesHistory(steps: seq<Step>, e: Event, key: Dedup.Key, now: int)
    requires e.PageView? && e.actor != ""
    requires Dedup.NeverOvertaken(Run(INIT, steps).ops + [Dedup.Op.Check(key, now)])
    ensures var s := Run(INIT, steps);
            var ops := s.ops + [Dedup.Op.Check(key, now)];
            Next(s, Check(e, key, now)).duplicates == s.duplicates + 1 <==> Dedup.SeenWithinWindow(ops, |s.ops|)
  {
    RunKeeps(INIT, steps);
    var s := Run(INIT, steps);
    var ops := s.ops + [Dedup.Op.Check(key, now)];
    assert ops[..|s.ops|] == s.ops;
    Dedup.EvictionUnobservable(ops, |s.ops|);
  }

  // ---- what a call does ----

  /**
   The check: only a page view of a known actor, whose key was stamped less than 900 seconds
   before, is a duplicate; only such views stamp their key; everything else goes on to the
   send.
   */
  lemma CheckExactly(s: State, e: Event, key: Dedup.Key, now: int)
    ensures var s', known := Next(s, Check(e, key, now)), e.PageView? && e.actor != "";
            && s'.ch == s.ch && s'.entered == s.entered && s'.dropped == s.dropped
            && if known && key in s.dedup && now - s.dedup[key] < 900 then
                 s'.duplicates == s.duplicates + 1 && s'.pending == s.pending && s'.dedup == s.dedup
               else
                 && s'.duplicates == s.duplicates && s'.pending == s.pending + multiset{e}
                 && s'.dedup == if known then s.dedup[key := now] else s.dedup
  {
  }

  /** The event of a step that sends while fewer than 1024 events are queued. */
  function Admitted(s: State, step: Step): seq<Event> {
    if step.Send? && step.event in s.pending && |s.ch| < 1024 then [step.event] else []
  }

  /** A step that sends while 1024 events are queued. */
  function TurnedAway(s: State, step: Step): nat {
    if step.Send? && step.event in s.pending && |s.ch| == 1024 then 1 else 0
  }

  function AllAdmitted(steps: seq<Step>): seq<Event> {
    if steps == [] then []
    else
      var front := steps[..|steps| - 1];
      AllAdmitted(front) + Admitted(Run(INIT, front), steps[|steps| - 1])
  }

  function AllTurnedAway(steps: seq<Step>): nat {
    if steps == [] then 0
    else
      var front := steps[..|steps| - 1];
      AllTurnedAway(front) + TurnedAway(Run(INIT, front), steps[|steps| - 1])
  }

  lemma StepAdmits(s: State, step: Step)
    requires |s.ch| <= 1024
    ensures var s' := Next(s, step);
            s'.entered == s.entered + Admitted(s, step) && s'.dropped == s.dropped + TurnedAway(s, step)
  {
  }

  /**
   In every run, the channel accepted exactly the events that were sent while it had room, in
   the order in which they were sent, and dropped exactly as many as met 1024 queued events.
   */
  lemma {:induction false} EnteredExactly(steps: seq<Step>)
    ensures Run(INIT, steps).entered == AllAdmitted(steps) && Run(INIT, steps).dropped == AllTurnedAway(steps)
  {
    if steps != [] {
      var front := steps[..|steps| - 1];
      EnteredExactly(front);
      RunKeeps(INIT, front);
      StepAdmits(Run(INIT, front), steps[|steps| - 1]);
    }
  }

  /** The event of a step that sends. */
  function AllSent(steps: seq<Step>): seq<Event> {
    if steps == [] then []
    else
      var front, step := steps[..|steps| - 1], steps[|steps| - 1];
      AllSent(front) + (if step.Send? && step.event in Run(INIT, front).pending then [step.event] else [])
  }

  /** A run whose sends never meet a full channel drops nothing: all that was sent has entered. */
  lemma {:induction false} NothingDropped(steps: seq<Step>)
    requires AllTurnedAway(steps) == 0
    ensures Run(INIT, steps).dropped == 0 && Run(INIT, steps).entered == AllSent(steps)
  {
    EnteredExactly(steps);
    if steps != [] {
      var front := steps[..|steps| - 1];
      NothingDropped(front);
      EnteredExactly(front);
      RunKeeps(INIT, front);
    }
  }

  // ---- from the channel to the tables ----

  predicate IsView(e: Event, name: Name) {
    e.PageView? && (e.path, e.source) == name
  }

  predicate IsSearch(e: Event, name: Name) {
    e.Search? && (e.query, e.searchType) == name
  }

  predicate IsFailed(e: Event, name: Name) {
    IsSearch(e, name) && !e.hadResults
  }

  /** The events of batches that did not commit. */
  function RolledBack(bs: seq<Batch>): seq<Event> {
    if bs == [] then []
    else RolledBack(bs[..|bs| - 1]) + (if bs[|bs| - 1].committed then [] else Events(bs[|bs| - 1].executed))
  }

  lemma {:induction false} CountAppend<T>(a: seq<T>, b: seq<T>, p: T -> bool)
    ensures Count(a + b, p) == Count(a, p) + Count(b, p)
  {
    if b == [] {
      assert a + b == a;
    } else {
      assert (a + b)[..|a + b| - 1] == a + b[..|b| - 1];
      CountAppend(a, b[..|b| - 1], p);
    }
  }

  /** Counting executions by their event is counting events. */
  lemma {:induction false} CountEvents(xs: seq<Executed>, q: Executed -> bool, p: Event -> bool)
    requires forall i :: 0 <= i < |xs| ==> q(xs[i]) == p(xs[i].event)
    ensures Count(xs, q) == Count(Events(xs), p)
  {
    if xs != [] {
      assert Events(xs)[..|xs| - 1] == Events(xs[..|xs| - 1]);
      CountEvents(xs[..|xs| - 1], q, p);
    }
  }

  lemma {:induction false} HandedSplits(bs: seq<Batch>, p: Event -> bool)
    ensures Count(Handed(bs), p) == Count(Events(Committed(bs)), p) + Count(RolledBack(bs), p)
  {
    if bs != [] {
      var front, last := bs[..|bs| - 1], bs[|bs| - 1];
      HandedSplits(front, p);
      CountAppend(Handed(front), Events(last.executed), p);
      if last.committed {
        assert Events(Committed(bs)) == Events(Committed(front)) + Events(last.executed);
        CountAppend(Events(Committed(front)), Events(last.executed), p);
        assert RolledBack(bs) == RolledBack(front);
      } else {
        assert Committed(bs) == Committed(front);
        CountAppend(RolledBack(front), Events(last.executed), p);
      }
    }
  }

  /** What entered the channel was committed, was rolled back, or still waits. */
  lemma EnteredSplits(steps: seq<Step>, p: Event -> bool)
    ensures var s := Run(INIT, steps);
            Count(s.entered, p) == Count(Events(Committed(s.batches)), p) + Count(RolledBack(s.batches), p)
                                   + Count(s.buf, p) + Count(s.ch, p)
  {
    RunKeeps(INIT, steps);
    var s := Run(INIT, steps);
    CountAppend(Handed(s.batches) + s.buf, s.ch, p);
    CountAppend(Handed(s.batches), s.buf, p);
    HandedSplits(s.batches, p);
  }

  /**
   Conservation of page views, in every state of every run: each one that entered the
   channel is counted in `page_views`, was rolled back, or still waits in the buffer or the
   channel; and the hourly table agrees with the total.
   */
  lemma ViewsConserved(steps: seq<Step>, name: Name)
    requires AllExecuted(Committed(Run(INIT, steps).batches))
    ensures var s := Run(INIT, steps);
            var views := (e: Event) => IsView(e, name);
            && Count(s.entered, views)
               == CountIn(s.tables.views, name) + Count(RolledBack(s.batches), views)
                  + Count(s.buf, views) + Count(s.ch, views)
            && SumHours(s.tables.viewHours, name) == CountIn(s.tables.views, name)
  {
    RunKeeps(INIT, steps);
    var s := Run(INIT, steps);
    var xs := Committed(s.batches);
    EnteredSplits(steps, (e: Event) => IsView(e, name));
    CountEvents(xs, (x: Executed) => ViewTotal(x, name), (e: Event) => IsView(e, name));
    BatchingUnobservable(NO_ROWS, s.batches);
    TotalsSummarise(xs, name);
    HoursAddUp(s.batches, name);
  }

  /** The same of searches, by hour, and of failed searches, in their own table. */
  lemma SearchesConserved(steps: seq<Step>, name: Name)
    requires AllExecuted(Committed(Run(INIT, steps).batches))
    ensures var s := Run(INIT, steps);
            var searches := (e: Event) => IsSearch(e, name);
            var failures := (e: Event) => IsFailed(e, name);
            && Count(s.entered, searches)
               == SumHours(s.tables.searchHours, name) + Count(RolledBack(s.batches), searches)
                  + Count(s.buf, searches) + Count(s.ch, searches)
            && Count(s.entered, failures)
               == CountIn(s.tables.failed, name) + Count(RolledBack(s.batches), failures)
                  + Count(s.buf, failures) + Count(s.ch, failures)
  {
    RunKeeps(INIT, steps);
    var s := Run(INIT, steps);
    var xs := Committed(s.batches);
    EnteredSplits(steps, (e: Event) => IsSearch(e, name));
    EnteredSplits(steps, (e: Event) => IsFailed(e, name));
    CountEvents(xs, (x: Executed) => SearchInHours(x, name), (e: Event) => IsSearch(e, name));
    CountEvents(xs, (x: Executed) => FailedTotal(x, name), (e: Event) => IsFailed(e, name));
    BatchingUnobservable(NO_ROWS, s.batches);
    SumsCount(xs, name);
    TotalsSummarise(xs, name);
  }

  // ---- from a call to the tables ----

  /** A committed batch adds its events to the counts, when its statements succeed. */
  lemma FlushCounts(s: State, b: Batch, name: Name)
    requires Inv(s) && b.committed && AllExecuted(b.executed)
    ensures var t, es := Flush(s.tables, b), Events(b.executed);
            && CountIn(t.views, name) == CountIn(s.tables.views, name) + Count(es, (e: Event) => IsView(e, name))
            && SumHours(t.searchHours, name)
               == SumHours(s.tables.searchHours, name) + Count(es, (e: Event) => IsSearch(e, name))
            && CountIn(t.failed, name) == CountIn(s.tables.failed, name) + Count(es, (e: Event) => IsFailed(e, name))
  {
    var bs, xs := s.batches, b.executed;
    assert (bs + [b])[..|bs|] == bs;
    BatchingUnobservable(NO_ROWS, bs);
    BatchingUnobservable(NO_ROWS, bs + [b]);
    CountedTables(Committed(bs), name);
    CountedTables(Committed(bs) + xs, name);
    CountAppend(Committed(bs), xs, (x: Executed) => ViewTotal(x, name));
    CountAppend(Committed(bs), xs, (x: Executed) => SearchInHours(x, name));
    CountAppend(Committed(bs), xs, (x: Executed) => FailedTotal(x, name));
    CountEvents(xs, (x: Executed) => ViewTotal(x, name), (e: Event) => IsView(e, name));
    CountEvents(xs, (x: Executed) => SearchInHours(x, name), (e: Event) => IsSearch(e, name));
    CountEvents(xs, (x: Executed) => FailedTotal(x, name), (e: Event) => IsFailed(e, name));
  }

  lemma CountedTables(xs: seq<Executed>, name: Name)
    ensures var t := ExecAll(NO_ROWS, xs);
            && CountIn(t.views, name) == Count(xs, (x: Executed) => ViewTotal(x, name))
            && SumHours(t.searchHours, name) == Count(xs, (x: Executed) => SearchInHours(x, name))
            && CountIn(t.failed, name) == Count(xs, (x: Executed) => FailedTotal(x, name))
  {
    TotalsSummarise(xs, name);
    SumsCount(xs, name);
  }
}
