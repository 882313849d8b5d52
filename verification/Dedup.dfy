/**
 The time-windowed de-duplication map of the analytics writer.

 Both `isDuplicate` and `evictStaleDedup` read the clock before they take the lock. A
 schedule is therefore the sequence of critical sections in the order in which the lock
 was taken, each with the time it had sampled; the samples need not be in order.
 */
module Dedup {

  /** `defaultDedupWindow`, in seconds. */
  const WINDOW: int := 900

  /** The 64-bit hash of actor, NUL and path. */
  type Key = nat

  datatype Op = Check(key: Key, now: int) | Evict(now: int)

  /** What `isDuplicate` answers. */
  predicate IsDup(dedup: map<Key, int>, key: Key, now: int) {
    key in dedup && now - dedup[key] < WINDOW
  }

  function Checked(dedup: map<Key, int>, key: Key, now: int): map<Key, int> {
    if IsDup(dedup, key, now) then dedup else dedup[key := now]
  }

  function Evicted(dedup: map<Key, int>, now: int): map<Key, int> {
    map k | k in dedup && !(dedup[k] < now - WINDOW) :: dedup[k]
  }

  function Apply(dedup: map<Key, int>, op: Op): map<Key, int> {
    match op
    case Check(key, now) => Checked(dedup, key, now)
    case Evict(now) => Evicted(dedup, now)
  }

  /** The map after a schedule that starts from the empty map. */
  function After(ops: seq<Op>): map<Key, int> {
    if ops == [] then map[] else Apply(After(ops[..|ops| - 1]), ops[|ops| - 1])
  }

  lemma AfterSnoc(ops: seq<Op>, op: Op)
    ensures After(ops + [op]) == Apply(After(ops), op)
  {
    assert (ops + [op])[..|ops|] == ops;
  }

  /** The `i`-th critical section let its event through. */
  predicate Passes(ops: seq<Op>, i: nat)
    requires i < |ops|
  {
    ops[i].Check? && !IsDup(After(ops[..i]), ops[i].key, ops[i].now)
  }

  // ---- the specification: an unbounded history instead of a map ----

  /** An earlier check of the same key passed less than 15 minutes before the `j`-th. */
  ghost predicate SeenWithinWindow(ops: seq<Op>, j: nat)
    requires j < |ops| && ops[j].Check?
  {
    exists i :: 0 <= i < j && Passes(ops, i) && ops[i].key == ops[j].key && ops[j].now - ops[i].now < 900
  }

  /** No check runs after an eviction whose sample is two or more seconds ahead of its own. */
  predicate NeverOvertaken(ops: seq<Op>) {
    forall i, j :: 0 <= i < j < |ops| && ops[i].Evict? && ops[j].Check? ==> ops[j].now + 1 >= ops[i].now
  }

  /** Samples taken under the lock: the schedule is sorted by time. */
  predicate SampledInOrder(ops: seq<Op>) {
    forall i, j :: 0 <= i < j < |ops| ==> ops[i].now <= ops[j].now
  }

  // ---- the invariant that ties the map to the history ----

  /** Passed checks of `k` among the first `n` are covered by the map or too old to matter. */
  ghost predicate Covered(ops: seq<Op>, n: nat, i: nat)
    requires i < n <= |ops| && ops[i].Check?
  {
    var m := After(ops[..n]);
    if ops[i].key in m then ops[i].now <= m[ops[i].key]
    else forall j :: n <= j < |ops| && ops[j].Check? ==> ops[j].now - ops[i].now >= WINDOW
  }

  /** Every entry of the map was stamped by a passed check. */
  ghost predicate Stamped(ops: seq<Op>, n: nat, k: Key)
    requires n <= |ops| && k in After(ops[..n])
  {
    exists i :: 0 <= i < n && Passes(ops, i) && ops[i].key == k && ops[i].now == After(ops[..n])[k]
  }

  ghost predicate Tied(ops: seq<Op>, n: nat)
    requires n <= |ops|
  {
    && (forall i :: 0 <= i < n && Passes(ops, i) ==> Covered(ops, n, i))
    && (forall k :: k in After(ops[..n]) ==> Stamped(ops, n, k))
  }

  lemma TiedStep(ops: seq<Op>, n: nat)
    requires n < |ops| && NeverOvertaken(ops) && Tied(ops, n)
    ensures Tied(ops, n + 1)
  {
    var m, m' := After(ops[..n]), After(ops[..n + 1]);
    assert ops[..n + 1][..n] == ops[..n];
    assert m' == Apply(m, ops[n]);
    forall k | k in m' ensures Stamped(ops, n + 1, k) {
      if k in m && m'[k] == m[k] {
        assert Stamped(ops, n, k);
        var i :| 0 <= i < n && Passes(ops, i) && ops[i].key == k && ops[i].now == m[k];
        assert ops[i].now == m'[k];
      } else {
        assert Passes(ops, n) && ops[n].key == k && ops[n].now == m'[k];
      }
    }
    forall i | 0 <= i < n + 1 && Passes(ops, i) ensures Covered(ops, n + 1, i) {
      if i < n {
        assert Covered(ops, n, i);
      }
    }
  }

  lemma {:induction false} TiedAlways(ops: seq<Op>, n: nat)
    requires n <= |ops| && NeverOvertaken(ops)
    ensures Tied(ops, n)
  {
    if n > 0 {
      TiedAlways(ops, n - 1);
      TiedStep(ops, n - 1);
    } else {
      TiedNone(ops);
    }
  }

  lemma TiedNone(ops: seq<Op>)
    ensures Tied(ops, 0)
  {
    assert After(ops[..0]) == map[];
  }

  /**
   Eviction is unobservable: in every schedule whose checks are not overtaken, the evicting
   map reports a duplicate exactly when the unbounded history does.
   */
  lemma EvictionUnobservable(ops: seq<Op>, j: nat)
    requires j < |ops| && ops[j].Check? && NeverOvertaken(ops)
    ensures !Passes(ops, j) <==> SeenWithinWindow(ops, j)
  {
    TiedAlways(ops, j);
    var m := After(ops[..j]);
    if !Passes(ops, j) {
      assert Stamped(ops, j, ops[j].key);
      var i :| 0 <= i < j && Passes(ops, i) && ops[i].key == ops[j].key && ops[i].now == m[ops[j].key];
      assert ops[j].now - ops[i].now < WINDOW;
    }
    if SeenWithinWindow(ops, j) {
      var i :| 0 <= i < j && Passes(ops, i) && ops[i].key == ops[j].key && ops[j].now - ops[i].now < WINDOW;
      assert Covered(ops, j, i);
    }
  }

  /** Two checks of one key that both pass are a full window apart, in lock order. */
  lemma PassedAreApart(ops: seq<Op>, i: nat, j: nat)
    requires i < j < |ops| && NeverOvertaken(ops)
    requires Passes(ops, i) && Passes(ops, j) && ops[i].key == ops[j].key
    ensures ops[j].now - ops[i].now >= 900
  {
    EvictionUnobservable(ops, j);
  }

  /** A clock read under the lock never overtakes, so both results above hold of every such run. */
  lemma InOrderNeverOvertakes(ops: seq<Op>)
    requires SampledInOrder(ops)
    ensures NeverOvertaken(ops)
    ensures forall j :: 0 <= j < |ops| && ops[j].Check? ==> (!Passes(ops, j) <==> SeenWithinWindow(ops, j))
  {
    forall j | 0 <= j < |ops| && ops[j].Check?
      ensures !Passes(ops, j) <==> SeenWithinWindow(ops, j)
    {
      EvictionUnobservable(ops, j);
    }
  }

  // ---- against a map that never evicts ----

  /** The map of a writer without `evictStaleDedup`. */
  function AfterKeeping(ops: seq<Op>): map<Key, int> {
    if ops == [] then map[]
    else
      var m, op := AfterKeeping(ops[..|ops| - 1]), ops[|ops| - 1];
      if op.Check? then Checked(m, op.key, op.now) else m
  }

  predicate PassesKeeping(ops: seq<Op>, i: nat)
    requires i < |ops|
  {
    ops[i].Check? && !IsDup(AfterKeeping(ops[..i]), ops[i].key, ops[i].now)
  }

  /** After `n` sections the maps differ only in stamps that no later check can match. */
  ghost predicate Shadows(ops: seq<Op>, n: nat)
    requires n <= |ops|
  {
    var m, all := After(ops[..n]), AfterKeeping(ops[..n]);
    && (forall k :: k in m ==> k in all && all[k] == m[k])
    && (forall k, j :: k in all && k !in m && n <= j < |ops| && ops[j].Check? ==> ops[j].now - all[k] >= WINDOW)
  }

  lemma ShadowsStep(ops: seq<Op>, n: nat)
    requires n < |ops| && NeverOvertaken(ops) && Shadows(ops, n)
    ensures Shadows(ops, n + 1)
    ensures Passes(ops, n) <==> PassesKeeping(ops, n)
  {
    assert ops[..n + 1][..n] == ops[..n];
    assert After(ops[..n + 1]) == Apply(After(ops[..n]), ops[n]);
  }

  lemma {:induction false} ShadowsAlways(ops: seq<Op>, n: nat)
    requires n <= |ops| && NeverOvertaken(ops)
    ensures Shadows(ops, n)
  {
    if n > 0 {
      ShadowsAlways(ops, n - 1);
      ShadowsStep(ops, n - 1);
    } else {
      assert ops[..0] == [];
    }
  }

  /** Every check is answered as by a map that never evicts. */
  lemma SameAsNeverEvicting(ops: seq<Op>, j: nat)
    requires j < |ops| && NeverOvertaken(ops)
    ensures Passes(ops, j) <==> PassesKeeping(ops, j)
  {
    ShadowsAlways(ops, j);
    ShadowsStep(ops, j);
  }

  // ---- the bound is exact ----

  /** Any schedule, then one stamp, one eviction and a check of the stamped key. */
  function Overtaking(before: seq<Op>, k: Key, stamp: int, evict: int, now: int): seq<Op> {
    before + [Check(k, stamp), Evict(evict), Check(k, now)]
  }

  /** The key has not been checked so far. */
  predicate Unchecked(ops: seq<Op>, k: Key) {
    forall i :: 0 <= i < |ops| && ops[i].Check? ==> ops[i].key != k
  }

  lemma {:induction false} UncheckedAbsent(ops: seq<Op>, k: Key)
    requires Unchecked(ops, k)
    ensures k !in After(ops) && k !in AfterKeeping(ops)
  {
    if ops != [] {
      UncheckedAbsent(ops[..|ops| - 1], k);
    }
  }

  lemma OvertakingRun(before: seq<Op>, k: Key, stamp: int, evict: int, now: int)
    requires Unchecked(before, k)
    ensures var ops, n := Overtaking(before, k, stamp, evict, now), |before|;
            && (Passes(ops, n + 2) <==> stamp < evict - WINDOW || now - stamp >= WINDOW)
            && (PassesKeeping(ops, n + 2) <==> now - stamp >= WINDOW)
            && (SeenWithinWindow(ops, n + 2) <==> now - stamp < WINDOW)
  {
    var ops, n := Overtaking(before, k, stamp, evict, now), |before|;
    UncheckedAbsent(before, k);
    assert ops[..n] == before;
    assert ops[..n + 1][..n] == before && ops[..n + 2][..n + 1] == ops[..n + 1];
    assert After(ops[..n + 1]) == After(before)[k := stamp];
    assert AfterKeeping(ops[..n + 2]) == AfterKeeping(before)[k := stamp];
    assert After(ops[..n + 2]) == Evicted(After(before)[k := stamp], evict);
    assert Passes(ops, n) && !Passes(ops, n + 1);
    assert forall i :: 0 <= i < n ==> ops[i] == before[i];
  }

  /**
   The bound in `NeverOvertaken` is exact, behind any schedule that leaves the key
   unchecked. A check that samples `now` and runs after an eviction that sampled `evict`
   agrees with the history, and with a map that never evicts, whatever was stamped before
   if and only if `now + 1 >= evict`.
   */
  lemma OvertakenExactly(before: seq<Op>, k: Key, evict: int, now: int)
    requires Unchecked(before, k)
    ensures (forall stamp :: Agrees(before, k, stamp, evict, now)) <==> now + 1 >= evict
  {
    forall stamp ensures now + 1 >= evict ==> Agrees(before, k, stamp, evict, now) {
      OvertakingRun(before, k, stamp, evict, now);
    }
    if now + 1 < evict {
      OvertakingRun(before, k, now - WINDOW + 1, evict, now);
      assert !Agrees(before, k, now - WINDOW + 1, evict, now);
    }
  }

  ghost predicate Agrees(before: seq<Op>, k: Key, stamp: int, evict: int, now: int) {
    var ops, last := Overtaking(before, k, stamp, evict, now), |before| + 2;
    (!Passes(ops, last) <==> SeenWithinWindow(ops, last)) && (Passes(ops, last) <==> PassesKeeping(ops, last))
  }
}
