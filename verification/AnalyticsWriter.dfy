/**
 The writer object itself: the fields it updates in place and its methods, each proved to
 be a run of the state machine in WriterPipeline.
 */
module AnalyticsWriter {
  import opened CounterTables
  import opened WriterPipeline
  import Dedup
  import opened Strings

  /** What one iteration of the flush loop meets: the clock and its two statements. */
  datatype Outcome = Outcome(now: int, hoursOk: bool, totalsOk: bool)

  function Execution(events: seq<Event>, outcomes: nat -> Outcome): (xs: seq<Executed>)
    ensures Events(xs) == events
  {
    var xs := seq(|events|, i requires 0 <= i < |events| =>
      Executed(events[i], outcomes(i).now, outcomes(i).hoursOk, outcomes(i).totalsOk));
    assert Events(xs) == events;
    xs
  }

  /** The bytes hashed for a page view of an actor: actor, NUL, path. */
  function KeyText(actor: string, path: string): string {
    actor + ['\0'] + path
  }

  /** Two actors or paths never share the hashed text while actors hold no NUL (a hex hash does not). */
  lemma KeyTextInjective(a: string, p: string, b: string, q: string)
    requires Lacks(a, '\0') && Lacks(b, '\0')
    requires KeyText(a, p) == KeyText(b, q)
    ensures a == b && p == q
  {
    FindIn(a, '\0', p);
    FindIn(b, '\0', q);
    var s := KeyText(a, p);
    assert s[..|a|] == a && s[..|b|] == b;
    assert s[|a| + 1..] == p && s[|b| + 1..] == q;
  }

  /** What an event is de-duplicated by; searches are not, and have no key. */
  function KeyOf(e: Event): string {
    if e.PageView? then KeyText(e.actor, e.path) else ""
  }

  class Writer {
    const hash: string -> Dedup.Key
    var dedup: map<Dedup.Key, int>
    var ch: seq<Event>
    var buf: seq<Event>
    var tables: Tables
    var closed: bool
    /** The state of the machine that this object is running. */
    ghost var model: State

    ghost predicate Valid()
      reads this
    {
      && model.dedup == dedup && model.ch == ch && model.buf == buf
      && model.tables == tables && model.closed == closed
    }

    constructor (hash: string -> Dedup.Key)
      ensures Valid() && model == INIT && this.hash == hash
    {
      this.hash := hash;
      dedup, ch, buf, tables, closed := map[], [], [], NO_ROWS, false;
      model := INIT;
    }

    method IsDuplicate(actor: string, path: string, now: int) returns (dup: bool)
      modifies this`dedup
      ensures dup <==> Dedup.IsDup(old(dedup), hash(KeyText(actor, path)), now)
      ensures dup ==> dedup == old(dedup)
      ensures !dup ==> dedup == old(dedup)[hash(KeyText(actor, path)) := now]
    {
      var key := hash(KeyText(actor, path));
      if key in dedup {
        var last := dedup[key];
        if now - last < Dedup.WINDOW {
          return true;
        }
      }
      dedup := dedup[key := now];
      return false;
    }

    /** One uninterrupted call: the duplicate check, then the non-blocking send. */
    method Record(e: Event, now: int)
      requires Valid()
      modifies this
      ensures Valid()
      ensures var key := hash(KeyOf(e));
              var checked := AfterCheck(old(model), e, key, now);
              model == if Deduplicated(e) && Dedup.IsDup(old(dedup), key, now) then checked else AfterSend(checked, e)
      ensures buf == old(buf) && tables == old(tables)
      ensures var dup := e.PageView? && e.actor != "" && Dedup.IsDup(old(dedup), hash(KeyOf(e)), now);
              ch == if dup || |old(ch)| >= 1024 then old(ch) else old(ch) + [e]
    {
      model := AfterCheck(model, e, hash(KeyOf(e)), now);
      if Deduplicated(e) {
        var dup := IsDuplicate(e.actor, e.path, now);
        if dup {
          return;
        }
      }
      model := AfterSend(model, e);
      if |ch| < CAPACITY {
        ch := ch + [e];
      }
    }

    /** Executes the buffer in a transaction; the tables change only if it commits. */
    method FlushEvents(events: seq<Event>, outcomes: nat -> Outcome, commits: bool)
      modifies this`tables
      ensures tables == Flush(old(tables), Batch(Execution(events, outcomes), commits))
    {
      var tx := tables;
      var xs := Execution(events, outcomes);
      var i := 0;
      while i < |events|
        invariant 0 <= i <= |events|
        invariant tx == ExecAll(tables, xs[..i])
        invariant tables == old(tables)
      {
        assert xs[..i + 1][..i] == xs[..i];
        tx := Exec(tx, xs[i]);
        i := i + 1;
      }
      assert xs[..i] == xs;
      if commits {
        tables := tx;
      }
    }

    /** The receiving branch: take everything available, flush a large buffer. */
    method ReceiveAvailable(outcomes: nat -> Outcome, commits: bool)
      requires Valid() && model.phase == Idle && ch != []
      modifies this
      ensures Valid() && model.phase == Idle && ch == [] && dedup == old(dedup)
      ensures var all := old(buf) + old(ch);
              var batch := Batch(Execution(all, outcomes), commits);
              && model == Run(old(model), Receives(|old(ch)|) + [EndBatch(batch)])
              && buf == (if |all| >= 100 then [] else all)
              && tables == (if |all| >= 100 then Flush(old(tables), batch) else old(tables))
    {
      TakeAll();
      var batch := Batch(Execution(buf, outcomes), commits);
      assert (Receives(|old(ch)|) + [EndBatch(batch)])[..|old(ch)|] == Receives(|old(ch)|);
      model := Next(model, EndBatch(batch));
      if |buf| >= BATCH {
        FlushEvents(buf, outcomes, commits);
        buf := [];
      }
    }

    /** The inner loop: read until the channel is empty. */
    method TakeAll()
      requires Valid() && (model.phase == Idle || model.phase == Draining)
      modifies this
      ensures Valid() && ch == [] && buf == old(buf) + old(ch)
      ensures model == Run(old(model), Receives(|old(ch)|))
      ensures model.phase == if old(model).phase == Idle && old(ch) != [] then Batching else old(model).phase
      ensures dedup == old(dedup) && tables == old(tables) && closed == old(closed)
    {
      while ch != []
        invariant |ch| <= |old(ch)| && ch == old(ch)[|old(ch)| - |ch|..]
        invariant buf == old(buf) + old(ch)[..|old(ch)| - |ch|]
        invariant model == old(model) && dedup == old(dedup) && tables == old(tables) && closed == old(closed)
        decreases |ch|
      {
        buf := buf + [ch[0]];
        ch := ch[1..];
      }
      ReceivesRun(model, |old(ch)|);
      model := Run(model, Receives(|old(ch)|));
    }

    /** The ticker branch: flush whatever is buffered, then evict. */
    method OnTick(outcomes: nat -> Outcome, commits: bool, now: int)
      requires Valid() && model.phase == Idle
      modifies this
      ensures Valid() && buf == [] && ch == old(ch)
      ensures var batch := Batch(Execution(old(buf), outcomes), commits);
              && model == Next(Next(old(model), Tick(batch)), Evict(now))
              && tables == if old(buf) == [] then old(tables) else Flush(old(tables), batch)
      ensures dedup == Dedup.Evicted(old(dedup), now)
    {
      ghost var batch := Batch(Execution(buf, outcomes), commits);
      model := Next(model, Tick(batch));
      if |buf| > 0 {
        FlushEvents(buf, outcomes, commits);
        buf := [];
      }
      model := Next(model, Evict(now));
      EvictStale(now);
    }

    /** Deletes stale stamps one by one while ranging over the map. */
    method EvictStale(now: int)
      modifies this`dedup
      ensures dedup == Dedup.Evicted(old(dedup), now)
    {
      var cutoff := now - Dedup.WINDOW;
      var unseen: set<Dedup.Key> := dedup.Keys;
      while unseen != {}
        invariant unseen <= dedup.Keys
        invariant dedup.Keys <= old(dedup).Keys
        invariant forall k :: k in dedup ==> dedup[k] == old(dedup)[k]
        invariant forall k :: k in old(dedup) && k !in unseen ==> (k in dedup <==> !(old(dedup)[k] < cutoff))
        decreases unseen
      {
        var k :| k in unseen;
        if dedup[k] < cutoff {
          dedup := dedup - {k};
        }
        unseen := unseen - {k};
      }
      assert dedup == Dedup.Evicted(old(dedup), now);
    }

    /** `Stop` and the branch it wakes: drain the channel, flush what is left, exit. */
    method Stop(outcomes: nat -> Outcome, commits: bool)
      requires Valid() && model.phase == Idle
      modifies this
      ensures Valid() && ch == [] && buf == []
      ensures var all := old(buf) + old(ch);
              var batch := Batch(Execution(all, outcomes), commits);
              && model == Run(old(model), StopSteps(|old(ch)|, batch))
              && tables == if all == [] then old(tables) else Flush(old(tables), batch)
    {
      closed := true;
      ghost var m0 := model;
      model := model.(closed := true, phase := Draining);
      TakeAll();
      var batch := Batch(Execution(buf, outcomes), commits);
      if |buf| > 0 {
        FlushEvents(buf, outcomes, commits);
        buf := [];
      }
      StopRun(m0, batch);
      model := AfterStop(m0, batch);
    }
  }

  ghost function Receives(n: nat): (steps: seq<Step>)
    ensures |steps| == n
    ensures n > 0 ==> steps[..n - 1] == Receives(n - 1)
  {
    seq(n, _ => Receive)
  }

  ghost function StopSteps(queued: nat, batch: Batch): seq<Step> {
    [Close] + [NoticeClose] + Receives(queued) + [EndDrain(batch)]
  }

  /** The channel drained, everything flushed, the consumer gone. */
  function AfterStop(s: State, batch: Batch): State {
    var drained := s.(closed := true, buf := s.buf + s.ch, ch := []);
    (if drained.buf != [] then Flushed(drained, batch) else drained).(phase := Stopped)
  }

  lemma RunOne(s: State, step: Step)
    ensures Run(s, [step]) == Next(s, step)
  {
    assert [step][..0] == [];
  }

  lemma ClosingRun(s: State)
    requires s.phase == Idle
    ensures Run(s, [Close] + [NoticeClose]) == s.(closed := true, phase := Draining)
  {
    RunAppend(s, [Close], [NoticeClose]);
    RunOne(s, Close);
    RunOne(s.(closed := true), NoticeClose);
  }

  lemma DrainedRun(s: State, batch: Batch)
    requires s.phase == Draining && s.ch == [] && Events(batch.executed) == s.buf
    ensures Run(s, [EndDrain(batch)]) == (if s.buf != [] then Flushed(s, batch) else s).(phase := Stopped)
  {
    RunOne(s, EndDrain(batch));
  }

  lemma StopRun(s: State, batch: Batch)
    requires s.phase == Idle && Events(batch.executed) == s.buf + s.ch
    ensures Run(s, StopSteps(|s.ch|, batch)) == AfterStop(s, batch)
  {
    var closing, receives := [Close] + [NoticeClose], Receives(|s.ch|);
    var s1 := s.(closed := true, phase := Draining);
    RunAppend(s, closing + receives, [EndDrain(batch)]);
    RunAppend(s, closing, receives);
    ClosingRun(s);
    ReceivesRun(s1, |s.ch|);
    assert s.ch[..|s.ch|] == s.ch;
    DrainedRun(s1.(buf := s.buf + s.ch, ch := []), batch);
  }

  /** After an uninterrupted stop, everything that ever entered the channel was handed to flush. */
  lemma StopHandsOver(steps: seq<Step>, batch: Batch)
    requires var s := Run(INIT, steps); s.phase == Idle && Events(batch.executed) == s.buf + s.ch
    ensures var s := Run(INIT, steps);
            var stopped := Run(s, StopSteps(|s.ch|, batch));
            stopped.phase == Stopped && stopped.entered == s.entered == Handed(stopped.batches)
  {
    var s := Run(INIT, steps);
    RunKeeps(INIT, steps);
    StopRun(s, batch);
    RunKeeps(s, StopSteps(|s.ch|, batch));
    var done := Handed(AfterStop(s, batch).batches);
    assert done + [] + [] == done;
  }

  /** Reads move the front of the channel, in order, to the end of the buffer. */
  lemma {:induction false} ReceivesRun(s: State, n: nat)
    requires (s.phase == Idle || s.phase == Draining) && n <= |s.ch|
    ensures Run(s, Receives(n)) == Received(s, n)
  {
    if n > 0 {
      ReceivesRun(s, n - 1);
      ReceiveOne(s, n);
    } else {
      assert s.buf + s.ch[..0] == s.buf && s.ch[0..] == s.ch;
    }
  }

  /** `s` after its first `n` queued events have been read. */
  function Received(s: State, n: nat): State
    requires n <= |s.ch|
  {
    s.(buf := s.buf + s.ch[..n], ch := s.ch[n..], phase := if s.phase == Idle && n > 0 then Batching else s.phase)
  }

  lemma ReceiveOne(s: State, n: nat)
    requires (s.phase == Idle || s.phase == Draining) && 0 < n <= |s.ch|
    ensures Next(Received(s, n - 1), Receive) == Received(s, n)
  {
    assert s.ch[..n] == s.ch[..n - 1] + [s.ch[n - 1]];
    assert s.ch[n - 1..][1..] == s.ch[n..];
  }

  // ---- from a call to the tables ----

  /** What the consumer makes of a filled channel: it receives everything, and then ticks. */
  ghost function Collected(s: State, batch: Batch): State {
    Next(Run(s, Receives(|s.ch|) + [EndBatch(batch)]), Tick(batch))
  }

  lemma CollectedTables(s: State, batch: Batch)
    requires Inv(s) && s.phase == Idle && s.ch != [] && Events(batch.executed) == s.buf + s.ch
    ensures var t := Collected(s, batch);
            t.tables == Flush(s.tables, batch) && t.buf == [] && t.ch == [] && t.phase == Evicting
  {
    RunAppend(s, Receives(|s.ch|), [EndBatch(batch)]);
    ReceivesRun(s, |s.ch|);
    var full := s.(buf := s.buf + s.ch, ch := [], phase := Batching);
    assert Received(s, |s.ch|) == full;
    RunOne(full, EndBatch(batch));
    EndThenTick(full, batch);
  }

  lemma EndThenTick(s: State, batch: Batch)
    requires s.phase == Batching && s.ch == [] && s.buf != [] && Events(batch.executed) == s.buf
    ensures var t := Next(Next(s, EndBatch(batch)), Tick(batch));
            t.tables == Flush(s.tables, batch) && t.buf == [] && t.ch == [] && t.phase == Evicting
  {
  }

  /** How the counts of a name go up with some events. */
  ghost predicate CountsGrow(before: Tables, after: Tables, es: seq<Event>, name: Name) {
    && CountIn(after.views, name) == CountIn(before.views, name) + Count(es, (e: Event) => IsView(e, name))
    && SumHours(after.searchHours, name)
       == SumHours(before.searchHours, name) + Count(es, (e: Event) => IsSearch(e, name))
    && CountIn(after.failed, name) == CountIn(before.failed, name) + Count(es, (e: Event) => IsFailed(e, name))
  }

  /** A call that is let through while the channel has room: its event joins the queue. */
  function Recorded(s: State, e: Event, key: Dedup.Key, now: int): State {
    AfterSend(AfterCheck(s, e, key, now), e)
  }

  lemma RecordedKeeps(s: State, e: Event, key: Dedup.Key, now: int)
    requires Inv(s) && |s.ch| < 1024 && !(e.PageView? && e.actor != "" && Dedup.IsDup(s.dedup, key, now))
    ensures var r := Recorded(s, e, key, now);
            && Inv(r) && r.ch == s.ch + [e] && r.buf == s.buf && r.tables == s.tables && r.phase == s.phase
            && r.entered == s.entered + [e] && r.dropped == s.dropped && r.duplicates == s.duplicates
  {
    CheckKeeps(s, e, key, now);
    SendKeeps(AfterCheck(s, e, key, now), e);
  }

  /**
   From a call to the tables: an event that is no duplicate, recorded while fewer than 1024
   are queued, is counted once the consumer has received and ticked and the batch has been
   committed, together with what was queued and buffered before it.
   */
  lemma RecordedIsCounted(s: State, e: Event, key: Dedup.Key, now: int, batch: Batch, name: Name)
    requires Inv(s) && s.phase == Idle && |s.ch| < 1024
    requires !(e.PageView? && e.actor != "" && Dedup.IsDup(s.dedup, key, now))
    requires Events(batch.executed) == s.buf + s.ch + [e] && batch.committed && AllExecuted(batch.executed)
    ensures CountsGrow(s.tables, Collected(Recorded(s, e, key, now), batch).tables, s.buf + s.ch + [e], name)
  {
    RecordedKeeps(s, e, key, now);
    var r := Recorded(s, e, key, now);
    assert r.buf + r.ch == s.buf + s.ch + [e];
    CollectedTables(r, batch);
    FlushCounts(r, batch, name);
  }

  /** The consumer receives a filled channel, and then ticks: everything is flushed. */
  method Collect(w: Writer, outcomes: nat -> Outcome, evictAt: int)
    requires w.Valid() && w.model.phase == Idle && w.ch != []
    modifies w
    ensures w.Valid() && w.buf == [] && w.ch == []
    ensures w.tables == Flush(old(w.tables), Batch(Execution(old(w.buf + w.ch), outcomes), true))
  {
    w.ReceiveAvailable(outcomes, true);
    w.OnTick(outcomes, true, evictAt);
  }

  /** The same of the object, by its three methods. */
  method RecordReachesTables(w: Writer, e: Event, now: int, outcomes: nat -> Outcome, evictAt: int)
    requires w.Valid() && Inv(w.model) && w.model.phase == Idle && |w.ch| < 1024
    requires forall i :: outcomes(i).hoursOk && outcomes(i).totalsOk
    requires !(e.PageView? && e.actor != "" && Dedup.IsDup(w.dedup, w.hash(KeyOf(e)), now))
    modifies w
    ensures w.Valid() && w.buf == [] && w.ch == []
    ensures forall name :: CountsGrow(old(w.tables), w.tables, old(w.buf + w.ch) + [e], name)
  {
    ghost var s, key := w.model, w.hash(KeyOf(e));
    ghost var batch := Batch(Execution(s.buf + s.ch + [e], outcomes), true);
    RecordedKeeps(s, e, key, now);
    w.Record(e, now);
    ghost var r := w.model;
    assert r.buf + r.ch == s.buf + s.ch + [e];
    Collect(w, outcomes, evictAt);
    forall name ensures CountsGrow(s.tables, w.tables, s.buf + s.ch + [e], name) {
      FlushCounts(r, batch, name);
    }
  }

  lemma CountOne<T>(x: T, p: T -> bool)
    ensures Count([x], p) == if p(x) then 1 else 0
  {
    assert [x][..0] == [] && Filter([x][..0], p) == [];
  }

  /** On a writer with nothing queued or buffered, exactly the event's own count goes up, by one. */
  lemma OneEventCounts(before: Tables, after: Tables, e: Event, name: Name)
    requires CountsGrow(before, after, [] + [] + [e], name)
    ensures CountIn(after.views, name) == CountIn(before.views, name) + if IsView(e, name) then 1 else 0
    ensures SumHours(after.searchHours, name)
            == SumHours(before.searchHours, name) + if IsSearch(e, name) then 1 else 0
    ensures CountIn(after.failed, name) == CountIn(before.failed, name) + if IsFailed(e, name) then 1 else 0
  {
    assert [] + [] + [e] == [e];
    CountOne(e, (e: Event) => IsView(e, name));
    CountOne(e, (e: Event) => IsSearch(e, name));
    CountOne(e, (e: Event) => IsFailed(e, name));
  }
}
