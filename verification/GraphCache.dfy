/**
 The cached links graph: requests that hit the cache or join one computation in flight,
 writes to the store, and the invalidation that follows each write, in every interleaving.
 */
module GraphCache {
  import opened Options

  /**
   The one call in flight. Each waiter is known by the number of writes there had been when
   its request began. A computation reads the store piece by piece, so writes can fall into
   its window: `touched` says that one did, `overrun` that one did and its invalidation ran
   inside the window as well. A computed graph is stored in the cache before the flight ends,
   so requests that miss the cache again can still join it.
   */
  datatype Flight<G> =
    | Joined(waiters: seq<nat>)
    | Computing(waiters: seq<nat>, from: nat, touched: bool, overrun: bool)
    | Landing(waiters: seq<nat>, at: Option<nat>, value: Option<G>)

  /** What a request got: how many writes there were when it began, and of which store it is the graph, if known. */
  datatype Answer<G> = Answer(since: nat, at: Option<nat>, value: Option<G>)

  datatype State<S, G> = State(
    store: S,
    stores: seq<S>,     // every store there was, the current one last
    cache: Option<G>,
    cachedAt: Option<nat>,  // of which store the cache was computed, if no write disturbed that
    flight: Option<Flight<G>>,
    earlier: nat,       // invalidations still to run, of writes before the current window
    inside: nat,        // invalidations still to run, of writes inside it
    stale: bool,        // what is cached was published after an overrun
    flights: nat,
    served: seq<(nat, Answer<G>)>,  // which flight answered a waiter, and with what
    hits: seq<Answer<G>>)           // answers from the cache

  datatype Step<S, G> =
    | Request
    | SecondLook
    | Finish(result: Option<G>)  // the computed graph, stored in the cache, or an error
    | Land
    | Write(store: S)
    | Invalidate(ofInside: bool)

  function Init<S, G>(store: S): State<S, G> {
    State(store, [store], None, None, None, 0, 0, false, 0, [], [])
  }

  predicate IsComputing<S, G>(s: State<S, G>) {
    s.flight.Some? && s.flight.value.Computing?
  }

  function Writes<S, G>(s: State<S, G>): nat {
    if s.stores == [] then 0 else |s.stores| - 1
  }

  /** The computation yields the graph of the store, unless a write fell into its window. */
  predicate Enabled<S, G(==)>(graph: S -> G, s: State<S, G>, step: Step<S, G>) {
    match step
    case Request => true
    case SecondLook => s.flight.Some? && s.flight.value.Joined?
    case Finish(result) =>
      IsComputing(s) && (result.Some? && !s.flight.value.touched ==> result.value == graph(s.store))
    case Land => s.flight.Some? && s.flight.value.Landing?
    case Write(_) => true
    case Invalidate(ofInside) => if ofInside then s.inside > 0 else s.earlier > 0
  }

  /** A hit is answered at once; a miss joins the flight, or starts one. */
  function AfterRequest<S, G>(s: State<S, G>): State<S, G> {
    if s.cache.Some? then s.(hits := s.hits + [Answer(Writes(s), s.cachedAt, s.cache)])
    else if s.flight.None? then s.(flight := Some(Joined([Writes(s)])))
    else s.(flight := Some(s.flight.value.(waiters := s.flight.value.waiters + [Writes(s)])))
  }

  function AfterSecondLook<S, G>(s: State<S, G>): State<S, G>
    requires s.flight.Some?
  {
    var ws := s.flight.value.waiters;
    s.(flight := Some(if s.cache.Some? then Landing(ws, s.cachedAt, s.cache)
                      else Computing(ws, Writes(s), false, false)))
  }

  function AfterFinish<S, G>(s: State<S, G>, result: Option<G>): State<S, G>
    requires IsComputing(s)
  {
    var f := s.flight.value;
    var at := if result.Some? && !f.touched then Some(f.from) else None;
    var s' := s.(flight := Some(Landing(f.waiters, at, result)), earlier := s.earlier + s.inside, inside := 0);
    if result.Some? then s'.(cache := result, cachedAt := at, stale := f.overrun) else s'
  }

  /** All waiters of the flight get one value. */
  function AfterLand<S, G>(s: State<S, G>): State<S, G>
    requires s.flight.Some? && s.flight.value.Landing?
  {
    s.(flight := None, flights := s.flights + 1, served := s.served + Landed(s.flights, s.flight.value))
  }

  function Landed<G>(flight: nat, f: Flight<G>): (answers: seq<(nat, Answer<G>)>)
    requires f.Landing?
    ensures |answers| == |f.waiters|
    ensures forall i :: 0 <= i < |answers| ==> answers[i] == (flight, Answer(f.waiters[i], f.at, f.value))
  {
    seq(|f.waiters|, i requires 0 <= i < |f.waiters| => (flight, Answer(f.waiters[i], f.at, f.value)))
  }

  function AfterWrite<S, G>(s: State<S, G>, store: S): State<S, G> {
    var s' := s.(store := store, stores := s.stores + [store]);
    if IsComputing(s) then
      s'.(inside := s.inside + 1, flight := Some(s.flight.value.(touched := true)))
    else
      s'.(earlier := s.earlier + 1)
  }

  function AfterInvalidate<S, G>(s: State<S, G>, ofInside: bool): State<S, G>
    requires if ofInside then s.inside > 0 else s.earlier > 0
  {
    var s' := s.(cache := None, cachedAt := None, stale := false);
    if !ofInside then s'.(earlier := s.earlier - 1)
    else if IsComputing(s) then s'.(inside := s.inside - 1, flight := Some(s.flight.value.(overrun := true)))
    else s'.(inside := s.inside - 1)
  }

  /** One step; a step that is not enabled changes nothing. */
  function Next<S, G(==)>(graph: S -> G, s: State<S, G>, step: Step<S, G>): State<S, G> {
    if !Enabled(graph, s, step) then s else
    match step
    case Request => AfterRequest(s)
    case SecondLook => AfterSecondLook(s)
    case Finish(result) => AfterFinish(s, result)
    case Land => AfterLand(s)
    case Write(store) => AfterWrite(s, store)
    case Invalidate(ofInside) => AfterInvalidate(s, ofInside)
  }

  function Run<S, G(==)>(graph: S -> G, s: State<S, G>, steps: seq<Step<S, G>>): State<S, G> {
    if steps == [] then s else Next(graph, Run(graph, s, steps[..|steps| - 1]), steps[|steps| - 1])
  }

  lemma {:induction false} RunAppend<S, G>(graph: S -> G, s: State<S, G>, a: seq<Step<S, G>>, b: seq<Step<S, G>>)
    ensures Run(graph, s, a + b) == Run(graph, Run(graph, s, a), b)
  {
    if b == [] {
      assert a + b == a;
    } else {
      assert (a + b)[..|a + b| - 1] == a + b[..|b| - 1];
      RunAppend(graph, s, a, b[..|b| - 1]);
    }
  }

  // ---- what every step keeps ----

  /** A cached graph is right, or about to be dropped, or was published after an overrun. */
  ghost predicate CacheOk<S, G>(graph: S -> G, s: State<S, G>) {
    && (s.cache.Some? ==> s.cache.value == graph(s.store) || s.earlier + s.inside > 0 || s.stale)
    && (IsComputing(s) && s.flight.value.touched ==> s.inside > 0 || s.flight.value.overrun)
    && (IsComputing(s) && (s.inside > 0 || s.flight.value.overrun) ==> s.flight.value.touched)
    && (!IsComputing(s) ==> s.inside == 0)
  }

  /** All waiters of a flight were answered alike, and only flights that are over. */
  ghost predicate ServedOk<S, G>(s: State<S, G>) {
    && (forall i :: 0 <= i < |s.served| ==> s.served[i].0 < s.flights)
    && (forall i, j :: 0 <= i < j < |s.served| && s.served[i].0 == s.served[j].0 ==>
          s.served[i].1.value == s.served[j].1.value)
  }

  /** `value` is the graph of the store that it is dated with, if it is. */
  ghost predicate Dated<S, G>(graph: S -> G, stores: seq<S>, at: Option<nat>, value: Option<G>) {
    at.Some? ==> at.value < |stores| && value == Some(graph(stores[at.value]))
  }

  ghost predicate FlightDated<S, G>(graph: S -> G, stores: seq<S>, f: Flight<G>) {
    && (forall i :: 0 <= i < |f.waiters| ==> f.waiters[i] < |stores|)
    && (f.Computing? ==> f.from < |stores| && (f.touched <==> f.from < |stores| - 1))
    && (f.Landing? ==> Dated(graph, stores, f.at, f.value))
  }

  ghost predicate AnswerDated<S, G>(graph: S -> G, stores: seq<S>, a: Answer<G>) {
    a.since < |stores| && Dated(graph, stores, a.at, a.value)
  }

  /** Dates are right everywhere. */
  ghost predicate DatesOk<S, G>(graph: S -> G, s: State<S, G>) {
    && s.stores != [] && s.stores[|s.stores| - 1] == s.store
    && (s.cache.Some? ==> Dated(graph, s.stores, s.cachedAt, s.cache))
    && (s.flight.Some? ==> FlightDated(graph, s.stores, s.flight.value))
    && (forall i :: 0 <= i < |s.served| ==> AnswerDated(graph, s.stores, s.served[i].1))
    && (forall i :: 0 <= i < |s.hits| ==> AnswerDated(graph, s.stores, s.hits[i]))
  }

  ghost predicate Inv<S, G>(graph: S -> G, s: State<S, G>) {
    CacheOk(graph, s) && ServedOk(s) && DatesOk(graph, s)
  }

  lemma LandKeeps<S, G>(s: State<S, G>)
    requires ServedOk(s) && s.flight.Some? && s.flight.value.Landing?
    ensures ServedOk(AfterLand(s))
  {
  }

  lemma LandDates<S, G>(graph: S -> G, s: State<S, G>)
    requires DatesOk(graph, s) && s.flight.Some? && s.flight.value.Landing?
    ensures DatesOk(graph, AfterLand(s))
  {
    var s' := AfterLand(s);
    forall i | 0 <= i < |s'.served| ensures AnswerDated(graph, s'.stores, s'.served[i].1) {
      if i >= |s.served| {
        assert s'.served[i] == Landed(s.flights, s.flight.value)[i - |s.served|];
      }
    }
  }

  lemma RequestDates<S, G>(graph: S -> G, s: State<S, G>)
    requires DatesOk(graph, s)
    ensures DatesOk(graph, AfterRequest(s))
  {
  }

  /** Dates stay right when one more store follows. */
  lemma DatedStays<S, G>(graph: S -> G, stores: seq<S>, store: S, at: Option<nat>, value: Option<G>)
    requires Dated(graph, stores, at, value)
    ensures Dated(graph, stores + [store], at, value)
  {
  }

  lemma WriteDates<S, G>(graph: S -> G, s: State<S, G>, store: S)
    requires DatesOk(graph, s)
    ensures DatesOk(graph, AfterWrite(s, store))
  {
    var s' := AfterWrite(s, store);
    if s.cache.Some? {
      DatedStays(graph, s.stores, store, s.cachedAt, s.cache);
    }
    forall i | 0 <= i < |s.served| ensures AnswerDated(graph, s'.stores, s.served[i].1) {
      assert AnswerDated(graph, s.stores, s.served[i].1);
      DatedStays(graph, s.stores, store, s.served[i].1.at, s.served[i].1.value);
    }
    forall i | 0 <= i < |s.hits| ensures AnswerDated(graph, s'.stores, s.hits[i]) {
      assert AnswerDated(graph, s.stores, s.hits[i]);
      DatedStays(graph, s.stores, store, s.hits[i].at, s.hits[i].value);
    }
    if s.flight.Some? && s.flight.value.Landing? {
      DatedStays(graph, s.stores, store, s.flight.value.at, s.flight.value.value);
    }
  }

  lemma StepDates<S, G>(graph: S -> G, s: State<S, G>, step: Step<S, G>)
    requires DatesOk(graph, s)
    ensures DatesOk(graph, Next(graph, s, step))
  {
    if Enabled(graph, s, step) {
      match step {
        case Request => RequestDates(graph, s);
        case Land => LandDates(graph, s);
        case Write(store) => WriteDates(graph, s, store);
        case SecondLook =>
        case Finish(_) =>
        case Invalidate(_) =>
      }
    }
  }

  lemma StepCache<S, G>(graph: S -> G, s: State<S, G>, step: Step<S, G>)
    requires CacheOk(graph, s)
    ensures CacheOk(graph, Next(graph, s, step))
  {
  }

  lemma StepKeeps<S, G>(graph: S -> G, s: State<S, G>, step: Step<S, G>)
    requires Inv(graph, s)
    ensures Inv(graph, Next(graph, s, step))
  {
    StepCache(graph, s, step);
    StepDates(graph, s, step);
    if step.Land? && Enabled(graph, s, step) {
      LandKeeps(s);
    } else {
      assert Next(graph, s, step).served == s.served && Next(graph, s, step).flights == s.flights;
    }
  }

  lemma {:induction false} RunKeeps<S, G>(graph: S -> G, s: State<S, G>, steps: seq<Step<S, G>>)
    requires Inv(graph, s)
    ensures Inv(graph, Run(graph, s, steps))
  {
    if steps != [] {
      RunKeeps(graph, s, steps[..|steps| - 1]);
      StepKeeps(graph, Run(graph, s, steps[..|steps| - 1]), steps[|steps| - 1]);
    }
  }

  // ---- runs without an overrun ----

  /** No window of the run saw both a write and the invalidation of that write. */
  ghost predicate NeverOverrun<S, G>(graph: S -> G, s: State<S, G>, steps: seq<Step<S, G>>) {
    forall n :: 0 <= n <= |steps| ==> NoOverrun(Run(graph, s, steps[..n]))
  }

  predicate NoOverrun<S, G>(s: State<S, G>) {
    IsComputing(s) ==> !s.flight.value.overrun
  }

  lemma {:induction false} NeverStale<S, G>(graph: S -> G, s: State<S, G>, steps: seq<Step<S, G>>)
    requires !s.stale && NeverOverrun(graph, s, steps)
    ensures !Run(graph, s, steps).stale
  {
    if steps != [] {
      var front := steps[..|steps| - 1];
      forall n | 0 <= n <= |front| ensures NoOverrun(Run(graph, s, front[..n])) {
        assert front[..n] == steps[..n];
      }
      assert NeverOverrun(graph, s, front);
      NeverStale(graph, s, front);
      assert front[..|front|] == front;
      assert NoOverrun(Run(graph, s, front));
    }
  }

  /**
   In a run where no compute window sees both a write and that write's invalidation (so in
   particular where no write falls into a window), whenever no invalidation is outstanding
   a cached graph is the graph of the current store; and in every run the waiters of one
   flight all get the same answer.
   */
  lemma CacheIsCurrent<S, G>(graph: S -> G, store: S, steps: seq<Step<S, G>>)
    ensures var s := Run(graph, Init(store), steps);
            && (NeverOverrun(graph, Init(store), steps) && s.cache.Some? && s.earlier + s.inside == 0
                ==> s.cache.value == graph(s.store))
            && ServedOk(s)
  {
    RunKeeps(graph, Init(store), steps);
    if NeverOverrun(graph, Init(store), steps) {
      NeverStale(graph, Init(store), steps);
    }
  }

  // ---- exactly when the cache can be trusted ----

  /** A cached graph, and nothing outstanding that would drop it. */
  predicate Settled<S, G>(s: State<S, G>) {
    s.cache.Some? && s.earlier + s.inside == 0
  }

  predicate IsPublication<S, G(==)>(graph: S -> G, s: State<S, G>, step: Step<S, G>) {
    step.Finish? && step.result.Some? && Enabled(graph, s, step)
  }

  /** The `p`-th step of the run stores a graph, and no later step does. */
  ghost predicate LastPublication<S, G>(graph: S -> G, s: State<S, G>, steps: seq<Step<S, G>>, p: nat) {
    && p < |steps| && IsPublication(graph, Run(graph, s, steps[..p]), steps[p])
    && forall q :: p < q < |steps| ==> !IsPublication(graph, Run(graph, s, steps[..q]), steps[q])
  }

  /** What is cached was published. */
  lemma {:induction false} Published<S, G>(graph: S -> G, s: State<S, G>, steps: seq<Step<S, G>>) returns (p: nat)
    requires s.cache.None? && Run(graph, s, steps).cache.Some?
    ensures LastPublication(graph, s, steps, p)
  {
    p := |steps| - 1;
    var n, front := p, steps[..p];
    if !IsPublication(graph, Run(graph, s, front), steps[n]) {
      StaysFull(graph, Run(graph, s, front), steps[n]);
      p := Published(graph, s, front);
      assert front[..p] == steps[..p];
      forall q | p < q < |steps| ensures !IsPublication(graph, Run(graph, s, steps[..q]), steps[q]) {
        if q < n {
          assert front[..q] == steps[..q] && front[q] == steps[q];
        }
      }
    }
  }

  lemma StaysFull<S, G>(graph: S -> G, s: State<S, G>, step: Step<S, G>)
    requires !IsPublication(graph, s, step) && Next(graph, s, step).cache.Some?
    ensures s.cache.Some?
  {
  }

  /** The suffix stores no graph. */
  ghost predicate Unpublished<S, G>(graph: S -> G, s: State<S, G>, steps: seq<Step<S, G>>) {
    forall q :: 0 <= q < |steps| ==> !IsPublication(graph, Run(graph, s, steps[..q]), steps[q])
  }

  predicate NoWrites<S, G>(steps: seq<Step<S, G>>) {
    forall q :: 0 <= q < |steps| ==> !steps[q].Write?
  }

  /** A landing or no flight: nothing that could compute while the cache is full. */
  predicate Quiet<S, G>(s: State<S, G>) {
    s.cache.Some? && (s.flight.None? || s.flight.value.Landing?) && s.inside == 0
  }

  /** The parts of a state that say what is cached, and whether it may be. */
  function Essence<S, G>(s: State<S, G>): (S, Option<G>, nat, nat) {
    (s.store, s.cache, s.earlier, s.inside)
  }

  lemma QuietStep<S, G>(graph: S -> G, s: State<S, G>, step: Step<S, G>)
    requires Quiet(s)
    ensures var s' := Next(graph, s, step);
            if step.Write? then Quiet(s') && s'.earlier == s.earlier + 1
            else s'.cache.None? || (Quiet(s') && Essence(s') == Essence(s))
  {
  }

  lemma EmptyStays<S, G>(graph: S -> G, s: State<S, G>, step: Step<S, G>)
    requires s.cache.None? && !IsPublication(graph, s, step)
    ensures Next(graph, s, step).cache.None?
  {
  }

  /** After a publication, a cache that stays full has seen no write without its invalidation outstanding. */
  lemma {:induction false} AfterPublication<S, G>(graph: S -> G, s: State<S, G>, steps: seq<Step<S, G>>)
    requires Quiet(s) && Unpublished(graph, s, steps)
    ensures var t := Run(graph, s, steps);
            t.cache.None? || (Quiet(t) && t.earlier >= s.earlier
                              && (NoWrites(steps) ==> Essence(t) == Essence(s))
                              && (!NoWrites(steps) ==> t.earlier > s.earlier))
  {
    if steps != [] {
      var front, step := steps[..|steps| - 1], steps[|steps| - 1];
      UnpublishedFront(graph, s, steps);
      AfterPublication(graph, s, front);
      NoWritesSnoc(front, step);
      assert steps == front + [step];
      var t := Run(graph, s, front);
      if t.cache.Some? {
        QuietStep(graph, t, step);
      } else {
        EmptyStays(graph, t, step);
      }
    }
  }

  lemma UnpublishedFront<S, G>(graph: S -> G, s: State<S, G>, steps: seq<Step<S, G>>)
    requires steps != [] && Unpublished(graph, s, steps)
    ensures var n := |steps| - 1;
            Unpublished(graph, s, steps[..n]) && !IsPublication(graph, Run(graph, s, steps[..n]), steps[n])
  {
    var front := steps[..|steps| - 1];
    forall q | 0 <= q < |front| ensures !IsPublication(graph, Run(graph, s, front[..q]), front[q]) {
      assert front[..q] == steps[..q] && front[q] == steps[q];
    }
  }

  lemma NoWritesSnoc<S, G>(steps: seq<Step<S, G>>, step: Step<S, G>)
    ensures NoWrites(steps + [step]) <==> NoWrites(steps) && !step.Write?
  {
    var all := steps + [step];
    assert all[|steps|] == step;
    assert forall q :: 0 <= q < |steps| ==> all[q] == steps[q];
  }

  /** Without writes, a settled cache stays as it is. */
  lemma {:induction false} SettledStays<S, G>(graph: S -> G, s: State<S, G>, steps: seq<Step<S, G>>)
    requires Quiet(s) && Settled(s) && NoWrites(steps)
    ensures var t := Run(graph, s, steps); Quiet(t) && Essence(t) == Essence(s)
  {
    if steps != [] {
      var front := steps[..|steps| - 1];
      assert forall q :: 0 <= q < |front| ==> front[q] == steps[q];
      SettledStays(graph, s, front);
      QuietStep(graph, Run(graph, s, front), steps[|steps| - 1]);
    }
  }

  /** The run with another graph published at step `p`. */
  function With<S, G>(steps: seq<Step<S, G>>, p: nat, value: G): seq<Step<S, G>>
    requires p < |steps|
  {
    steps[p := Finish(Some(value))]
  }

  /** The state in which step `p` is taken. */
  function Before<S, G(==)>(graph: S -> G, store: S, steps: seq<Step<S, G>>, p: nat): State<S, G>
    requires p <= |steps|
  {
    Run(graph, Init(store), steps[..p])
  }

  /**
   A settled run, and the same run with any other graph that the last computation could have
   returned: both end settled, with what they published, over the same store.
   */
  lemma PublishedIsCached<S, G>(graph: S -> G, store: S, steps: seq<Step<S, G>>, p: nat, value: G)
    requires LastPublication(graph, Init(store), steps, p) && Settled(Run(graph, Init(store), steps))
    requires Enabled(graph, Before(graph, store, steps, p), Finish(Some(value)))
    ensures var s, t := Run(graph, Init(store), steps), Run(graph, Init(store), With(steps, p, value));
            t.cache == Some(value) && t.store == s.store == Before(graph, store, steps, p).store && Settled(t)
    ensures Before(graph, store, steps, p).inside == 0
  {
    var before, rest := Before(graph, store, steps, p), steps[p + 1..];
    var after, other := Next(graph, before, steps[p]), Next(graph, before, Finish(Some(value)));
    Split(graph, Init(store), steps, p);
    forall q | 0 <= q < |rest| ensures !IsPublication(graph, Run(graph, after, rest[..q]), rest[q]) {
      SplitAt(graph, Init(store), steps, p, q);
    }
    AfterPublication(graph, after, rest);
    var with := With(steps, p, value);
    assert with[..p] == steps[..p] && with[p + 1..] == rest;
    Split(graph, Init(store), with, p);
    SettledStays(graph, other, rest);
  }

  lemma Split<S, G>(graph: S -> G, s: State<S, G>, steps: seq<Step<S, G>>, p: nat)
    requires p < |steps|
    ensures Run(graph, s, steps)
            == Run(graph, Next(graph, Run(graph, s, steps[..p]), steps[p]), steps[p + 1..])
  {
    assert steps == steps[..p + 1] + steps[p + 1..];
    assert steps[..p + 1][..p] == steps[..p];
    RunAppend(graph, s, steps[..p + 1], steps[p + 1..]);
  }

  lemma SplitAt<S, G>(graph: S -> G, s: State<S, G>, steps: seq<Step<S, G>>, p: nat, q: nat)
    requires p + 1 + q < |steps|
    ensures Run(graph, s, steps[..p + 1 + q])
            == Run(graph, Next(graph, Run(graph, s, steps[..p]), steps[p]), steps[p + 1..][..q])
    ensures steps[p + 1..][q] == steps[p + 1 + q]
  {
    var front := steps[..p + 1 + q];
    assert front[..p] == steps[..p] && front[p] == steps[p] && front[p + 1..] == steps[p + 1..][..q];
    Split(graph, s, front, p);
  }

  /** Whatever the last computation could have returned, the cache ends up current. */
  ghost predicate AlwaysCurrent<S, G(!new)>(graph: S -> G, store: S, steps: seq<Step<S, G>>, p: nat)
    requires p < |steps|
  {
    forall value :: Enabled(graph, Before(graph, store, steps, p), Finish(Some(value))) ==>
      var t := Run(graph, Init(store), With(steps, p, value)); t.cache == Some(graph(t.store))
  }

  /**
   The exact condition, for every run that ends with a cached graph and nothing outstanding:
   the cache is current, whatever the last computation could have returned, if and only if no
   write and its invalidation both fell into that computation's window. (With one graph
   only, there is nothing to be wrong about.)
   */
  lemma CurrentExactly<S, G(!new)>(graph: S -> G, store: S, steps: seq<Step<S, G>>, a: G, b: G) returns (p: nat)
    requires a != b && Settled(Run(graph, Init(store), steps))
    ensures LastPublication(graph, Init(store), steps, p)
    ensures IsComputing(Before(graph, store, steps, p))
    ensures AlwaysCurrent(graph, store, steps, p) <==> !Before(graph, store, steps, p).flight.value.overrun
  {
    p := Published(graph, Init(store), steps);
    var before := Before(graph, store, steps, p);
    RunKeeps(graph, Init(store), steps[..p]);
    PublishedIsCached(graph, store, steps, p, steps[p].result.value);
    if before.flight.value.overrun {
      var wrong := if a == graph(before.store) then b else a;
      PublishedIsCached(graph, store, steps, p, wrong);
    } else {
      forall value | Enabled(graph, before, Finish(Some(value)))
        ensures var t := Run(graph, Init(store), With(steps, p, value)); t.cache == Some(graph(t.store))
      {
        PublishedIsCached(graph, store, steps, p, value);
      }
    }
  }

  // ---- one schedule ----

  /** A computation begins; a write and its invalidation fall into it; it publishes what it read. */
  function Overrun<S, G>(store: S, published: G): seq<Step<S, G>> {
    [Request, SecondLook, Write(store), Invalidate(true), Finish(Some(published))]
  }

  /** The same with the invalidation after the publication. */
  function LateInvalidation<S, G>(store: S, published: G): seq<Step<S, G>> {
    [Request, SecondLook, Write(store), Finish(Some(published)), Invalidate(false)]
  }

  function Step5<S, G(==)>(graph: S -> G, s: State<S, G>, t: seq<Step<S, G>>): State<S, G>
    requires |t| == 5
  {
    Next(graph, Next(graph, Next(graph, Next(graph, Next(graph, s, t[0]), t[1]), t[2]), t[3]), t[4])
  }

  /**
   A schedule that meets the condition and one that does not. After an overrun nothing is
   outstanding, and the cache holds exactly what was read in the window: it is wrong whenever
   that is not the graph of the new store, and every later request is answered with it. Had
   the invalidation come after the publication, the cache would be empty.
   */
  lemma OverrunLeavesStale<S, G>(graph: S -> G, s: State<S, G>, store: S, published: G)
    requires s.cache.None? && s.flight.None? && s.earlier == 0 && s.inside == 0
    ensures var after := Step5(graph, s, Overrun(store, published));
            && after.earlier + after.inside == 0 && after.cache == Some(published)
            && (after.cache.value == graph(after.store) <==> published == graph(store))
            && Next(graph, after, Request).hits == s.hits + [Answer(Writes(after), None, Some(published))]
    ensures var after := Step5(graph, s, LateInvalidation(store, published));
            after.earlier + after.inside == 0 && after.cache.None?
  {
  }

  // ---- how old an answer is ----

  /** `value` is the graph of the current store, or of one that was there after `since` writes. */
  ghost predicate Fresh<S, G>(graph: S -> G, stores: seq<S>, since: nat, value: G) {
    exists v :: since <= v < |stores| && value == graph(stores[v])
  }

  /** No two stores of the run have the same graph. */
  ghost predicate AllDiffer<S, G>(graph: S -> G, stores: seq<S>) {
    forall v, w :: 0 <= v < w < |stores| ==> graph(stores[v]) != graph(stores[w])
  }

  lemma DatedExactly<S, G>(graph: S -> G, stores: seq<S>, a: Answer<G>)
    requires AnswerDated(graph, stores, a) && a.at.Some? && AllDiffer(graph, stores)
    ensures a.value.Some? && (Fresh(graph, stores, a.since, a.value.value) <==> a.since <= a.at.value)
  {
    if Fresh(graph, stores, a.since, a.value.value) {
      var v :| a.since <= v < |stores| && a.value.value == graph(stores[v]);
      assert v == a.at.value;
    }
  }

  /**
   In every run, an answer whose computation was not disturbed is the graph of a store at or
   after the start of its request if the computation did not begin before the writes that the
   request had behind it; and only then, when the stores differ in their graphs. It fails for
   requests that join a flight after its computation is over.
   */
  lemma AnswersExactly<S, G>(graph: S -> G, store: S, steps: seq<Step<S, G>>, a: Answer<G>)
    requires var s := Run(graph, Init(store), steps);
             a in s.hits || exists i :: 0 <= i < |s.served| && s.served[i].1 == a
    requires a.at.Some?
    ensures var s := Run(graph, Init(store), steps);
            && a.value.Some?
            && (a.since <= a.at.value ==> Fresh(graph, s.stores, a.since, a.value.value))
            && (AllDiffer(graph, s.stores) ==>
                  (Fresh(graph, s.stores, a.since, a.value.value) <==> a.since <= a.at.value))
  {
    RunKeeps(graph, Init(store), steps);
    var s := Run(graph, Init(store), steps);
    assert AnswerDated(graph, s.stores, a);
    if AllDiffer(graph, s.stores) {
      DatedExactly(graph, s.stores, a);
    }
  }

  /** Whatever the computation in flight returns, a waiter since `since` gets a fresh answer. */
  ghost predicate SureToBeFresh<S, G(!new)>(graph: S -> G, s: State<S, G>, since: nat) {
    forall value :: Enabled(graph, s, Finish(Some(value))) ==> Fresh(graph, s.stores, since, value)
  }

  /**
   While a computation runs, its waiters are sure of a fresh answer if and only if no write
   has fallen into its window (unless every value is the graph of a store since their start).
   A request that joins behind such a write is not, even if the write's invalidation ran.
   */
  lemma WaitersExactly<S, G(!new)>(graph: S -> G, store: S, steps: seq<Step<S, G>>, since: nat, other: G)
    requires var s := Run(graph, Init(store), steps);
             IsComputing(s) && since in s.flight.value.waiters && !Fresh(graph, s.stores, since, other)
    ensures var s := Run(graph, Init(store), steps);
            SureToBeFresh(graph, s, since) <==> !s.flight.value.touched
  {
    RunKeeps(graph, Init(store), steps);
    var s := Run(graph, Init(store), steps);
    var i :| 0 <= i < |s.flight.value.waiters| && s.flight.value.waiters[i] == since;
    if s.flight.value.touched {
      assert Enabled(graph, s, Finish(Some(other)));
    } else {
      assert s.stores[|s.stores| - 1] == s.store;
    }
  }

  /** A second request after a write and its invalidation, into the window of the first. */
  function LateWaiter<S, G>(store: S, published: G): seq<Step<S, G>> {
    [Request, SecondLook, Write(store), Invalidate(true), Request, Finish(Some(published)), Land]
  }

  /** It can be answered with the graph of the store as it was before that write. */
  lemma LateWaiterIsStale<S, G>(graph: S -> G, before: S, store: S)
    ensures var s := Run(graph, Init(before), LateWaiter(store, graph(before)));
            && |s.served| == 2 && s.served[1].1 == Answer(1, None, Some(graph(before)))
            && (graph(before) != graph(store) ==> !Fresh(graph, s.stores, 1, graph(before)))
  {
    var t, s0 := LateWaiter(store, graph(before)), Init<S, G>(before);
    assert t[..1][..0] == [] && t[..2][..1] == t[..1] && t[..3][..2] == t[..2] && t[..4][..3] == t[..3];
    assert t[..5][..4] == t[..4] && t[..6][..5] == t[..5] && t[..7] == t && t[..7][..6] == t[..6];
    var s1, s2 := s0.(flight := Some(Joined([0]))), s0.(flight := Some(Computing([0], 0, false, false)));
    assert Run(graph, s0, t[..1]) == s1;
    assert Run(graph, s0, t[..2]) == s2;
    var written := s2.(store := store, stores := [before] + [store]);
    var s3 := written.(inside := 1, flight := Some(Computing([0], 0, true, false)));
    assert Run(graph, s0, t[..3]) == s3;
    var s4 := written.(flight := Some(Computing([0], 0, true, true)));
    assert Run(graph, s0, t[..4]) == s4;
    var s5 := written.(flight := Some(Computing([0] + [1], 0, true, true)));
    assert Run(graph, s0, t[..5]) == s5;
    var s6 := AfterFinish(s5, Some(graph(before)));
    assert Run(graph, s0, t[..6]) == s6;
    assert Run(graph, s0, t) == AfterLand(s6);
  }

  // ---- every request is answered once ----

  function Requests<S, G>(steps: seq<Step<S, G>>): nat {
    if steps == [] then 0 else Requests(steps[..|steps| - 1]) + if steps[|steps| - 1].Request? then 1 else 0
  }

  function Waiting<S, G>(s: State<S, G>): nat {
    if s.flight.Some? then |s.flight.value.waiters| else 0
  }

  lemma StepAnswers<S, G>(graph: S -> G, s: State<S, G>, step: Step<S, G>)
    ensures var s' := Next(graph, s, step);
            |s'.hits| + |s'.served| + Waiting(s')
            == |s.hits| + |s.served| + Waiting(s) + if step.Request? then 1 else 0
  {
  }

  /** In every run, each request was a hit, was served by its flight, or still waits for it. */
  lemma {:induction false} EveryRequestAnswered<S, G>(graph: S -> G, store: S, steps: seq<Step<S, G>>)
    ensures var s := Run(graph, Init(store), steps); |s.hits| + |s.served| + Waiting(s) == Requests(steps)
  {
    if steps != [] {
      EveryRequestAnswered(graph, store, steps[..|steps| - 1]);
      StepAnswers(graph, Run(graph, Init(store), steps[..|steps| - 1]), steps[|steps| - 1]);
    }
  }

  /**
   The second look: a graph that was published between a miss and its turn is what all
   waiters of the flight get, and nothing is computed.
   */
  lemma SecondLookAnswers<S, G>(graph: S -> G, s: State<S, G>)
    requires s.flight.Some? && s.flight.value.Joined? && s.cache.Some?
    ensures var s' := Next(graph, Next(graph, s, SecondLook), Land);
            && s'.cache == s.cache && s'.flight.None? && |s'.served| == |s.served| + |s.flight.value.waiters|
            && (forall i :: |s.served| <= i < |s'.served| ==>
                  s'.served[i].1.value == s.cache && s'.served[i].1.since == s.flight.value.waiters[i - |s.served|])
  {
  }

  /** A computation that fails leaves the cache alone, and all its waiters without a graph. */
  lemma FailureAnswers<S, G>(graph: S -> G, s: State<S, G>)
    requires IsComputing(s)
    ensures var s' := Next(graph, Next(graph, s, Finish(None)), Land);
            && s'.cache == s.cache && s'.flight.None? && |s'.served| == |s.served| + |s.flight.value.waiters|
            && (forall i :: |s.served| <= i < |s'.served| ==> s'.served[i].1.value == None)
  {
  }

  // ---- the handler ----

  /** What an uninterrupted request does when the cache is empty. */
  function Miss<S, G>(result: Option<G>): seq<Step<S, G>> {
    [Request, SecondLook, Finish(result), Land]
  }

  lemma MissRun<S, G>(graph: S -> G, s: State<S, G>, result: Option<G>)
    requires s.cache.None? && s.flight.None? && s.inside == 0
    requires result.Some? ==> result.value == graph(s.store)
    ensures var at := if result.Some? then Some(Writes(s)) else None;
            var t := Run(graph, s, Miss(result));
            && t.cache == result && t.flight.None? && t.store == s.store && t.inside == 0 && t.earlier == s.earlier
            && t.stale == (result.None? && s.stale)
            && t.served == s.served + [(s.flights, Answer(Writes(s), at, result))] && t.hits == s.hits
  {
    var steps := Miss(result);
    assert steps[..3][..2] == steps[..2] && steps[..2][..1] == steps[..1] && steps[..1][..0] == [];
    var joined := s.(flight := Some(Joined([Writes(s)])));
    assert Run(graph, s, steps[..1]) == joined;
    var computing := s.(flight := Some(Computing([Writes(s)], Writes(s), false, false)));
    assert Run(graph, s, steps[..2]) == computing;
    assert Run(graph, s, steps[..3]) == AfterFinish(computing, result);
  }

  /** The handler's fields, with the machine that it runs. */
  class Handler<S, G(==)> {
    const graph: S -> G
    /** Loaded and stored atomically; empty when there is no cached graph. */
    var cache: Option<G>
    var store: S
    ghost var model: State<S, G>

    ghost predicate Valid()
      reads this
    {
      model.cache == cache && model.store == store && model.flight.None? && Inv(graph, model)
    }

    constructor (graph: S -> G, store: S)
      ensures Valid() && model == Init(store) && this.graph == graph
    {
      this.graph, this.store := graph, store;
      cache := None;
      model := Init(store);
    }

    /** A write through the pipeline, before its invalidation. */
    method WriteStore(store: S)
      requires Valid()
      modifies this
      ensures Valid() && model == Next(graph, old(model), Write(store))
    {
      StepKeeps(graph, model, Write(store));
      model := Next(graph, model, Write(store));
      this.store := store;
    }

    method InvalidateGraphCache()
      requires Valid() && model.earlier > 0
      modifies this
      ensures Valid() && cache == None && model == Next(graph, old(model), Invalidate(false))
    {
      StepKeeps(graph, model, Invalidate(false));
      model := Next(graph, model, Invalidate(false));
      cache := None;
    }

    /** An uninterrupted request; `fails` says whether computing the graph fails. */
    method Graph(fails: bool) returns (answer: Option<G>)
      requires Valid()
      modifies this
      ensures Valid()
      ensures old(cache).Some? ==> answer == old(cache) && model == Next(graph, old(model), Request)
      ensures old(cache).None? ==>
                && answer == (if fails then None else Some(graph(store)))
                && model == Run(graph, old(model), Miss(answer))
      ensures answer.Some? && model.earlier == 0 && !old(model).stale ==> answer == Some(graph(store))
    {
      if cache != None {
        StepKeeps(graph, model, Request);
        model := Next(graph, model, Request);
        return cache;
      }
      ghost var result := if fails then None else Some(graph(store));
      MissRun(graph, model, result);
      RunKeeps(graph, model, Miss(result));
      model := Run(graph, model, Miss(result));
      if fails {
        return None;
      }
      var resp := graph(store);
      cache := Some(resp);
      return cache;
    }
  }
}
