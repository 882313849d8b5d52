/** Reading a list piece by piece: each element gives a few results, in order. */
module Seqs {

  lemma Associates<T>(a: seq<T>, b: seq<T>, c: seq<T>)
    ensures (a + b) + c == a + (b + c)
  {
  }

  function FlatMap<A, B>(f: A -> seq<B>, xs: seq<A>): seq<B> {
    if xs == [] then [] else FlatMap(f, xs[..|xs| - 1]) + f(xs[|xs| - 1])
  }

  lemma FlatMapSnoc<A, B>(f: A -> seq<B>, xs: seq<A>, x: A)
    ensures FlatMap(f, xs + [x]) == FlatMap(f, xs) + f(x)
  {
    assert (xs + [x])[..|xs|] == xs;
  }

  lemma FlatMapOne<A, B>(f: A -> seq<B>, x: A)
    ensures FlatMap(f, [x]) == f(x)
  {
    assert [x][..0] == [];
    assert FlatMap(f, [x]) == [] + f(x);
  }

  /** The last element may be replaced by one that reads the same. */
  lemma FlatMapLast<A, B>(f: A -> seq<B>, xs: seq<A>, y: A)
    requires xs != [] && f(y) == f(xs[|xs| - 1])
    ensures FlatMap(f, xs[..|xs| - 1] + [y]) == FlatMap(f, xs)
  {
    FlatMapSnoc(f, xs[..|xs| - 1], y);
  }

  lemma {:induction false} FlatMapConcat<A, B>(f: A -> seq<B>, a: seq<A>, b: seq<A>)
    ensures FlatMap(f, a + b) == FlatMap(f, a) + FlatMap(f, b)
  {
    if b == [] {
      assert a + b == a;
    } else {
      assert (a + b)[..|a + b| - 1] == a + b[..|b| - 1];
      FlatMapConcat(f, a, b[..|b| - 1]);
    }
  }

  lemma FlatMapCons<A, B>(f: A -> seq<B>, x: A, xs: seq<A>)
    ensures FlatMap(f, [x] + xs) == f(x) + FlatMap(f, xs)
  {
    FlatMapConcat(f, [x], xs);
    FlatMapOne(f, x);
  }

  /** An element that gives nothing can be left out. */
  lemma FlatMapSkip<A, B>(f: A -> seq<B>, a: seq<A>, p: A, b: seq<A>)
    requires f(p) == []
    ensures FlatMap(f, a + [p] + b) == FlatMap(f, a + b)
  {
    FlatMapConcat(f, a + [p], b);
    FlatMapSnoc(f, a, p);
    FlatMapConcat(f, a, b);
  }

  lemma {:induction false} FlatMapEach<A, B>(f: A -> seq<B>, xs: seq<A>, ys: seq<B>)
    requires |xs| == |ys| && forall i :: 0 <= i < |xs| ==> f(xs[i]) == [ys[i]]
    ensures FlatMap(f, xs) == ys
  {
    if xs != [] {
      FlatMapEach(f, xs[..|xs| - 1], ys[..|ys| - 1]);
      assert ys == ys[..|ys| - 1] + [ys[|ys| - 1]];
    }
  }

  lemma {:induction false} FlatMapSame<A, B, C>(f: A -> seq<C>, g: B -> seq<C>, xs: seq<A>, ys: seq<B>)
    requires |xs| == |ys| && forall i :: 0 <= i < |xs| ==> f(xs[i]) == g(ys[i])
    ensures FlatMap(f, xs) == FlatMap(g, ys)
  {
    if xs != [] {
      FlatMapSame(f, g, xs[..|xs| - 1], ys[..|ys| - 1]);
    }
  }

  /** Reordering the elements reorders the results. */
  lemma {:induction false} FlatMapPermuted<A, B>(f: A -> seq<B>, a: seq<A>, b: seq<A>)
    requires multiset(a) == multiset(b)
    ensures multiset(FlatMap(f, a)) == multiset(FlatMap(f, b))
    decreases |a|
  {
    if a == [] {
      assert |multiset(b)| == |b|;
    } else {
      var x, front := a[|a| - 1], a[..|a| - 1];
      assert a == front + [x];
      assert x in multiset(b);
      var k :| 0 <= k < |b| && b[k] == x;
      assert b == b[..k] + [x] + b[k + 1..];
      assert multiset(b[..k] + b[k + 1..]) == multiset(b) - multiset{x};
      FlatMapPermuted(f, front, b[..k] + b[k + 1..]);
      FlatMapConcat(f, b[..k] + [x], b[k + 1..]);
      FlatMapSnoc(f, b[..k], x);
      FlatMapConcat(f, b[..k], b[k + 1..]);
    }
  }

  /** Composition: reading the results of reading. */
  lemma {:induction false} FlatMapTwice<A, B, C>(f: A -> seq<B>, g: B -> seq<C>, h: A -> seq<C>, xs: seq<A>)
    requires forall x :: h(x) == FlatMap(g, f(x))
    ensures FlatMap(g, FlatMap(f, xs)) == FlatMap(h, xs)
  {
    if xs != [] {
      FlatMapTwice(f, g, h, xs[..|xs| - 1]);
      FlatMapConcat(g, FlatMap(f, xs[..|xs| - 1]), f(xs[|xs| - 1]));
    }
  }

  /** Every result comes from an element. */
  lemma {:induction false} FlatMapSource<A, B>(f: A -> seq<B>, xs: seq<A>, y: B) returns (k: nat)
    requires y in FlatMap(f, xs)
    ensures k < |xs| && y in f(xs[k])
  {
    k := |xs| - 1;
    if y !in f(xs[k]) {
      k := FlatMapSource(f, xs[..k], y);
    }
  }

  lemma SameSize<T>(a: seq<T>, b: seq<T>)
    requires multiset(a) == multiset(b)
    ensures |a| == |b|
  {
    assert |multiset(a)| == |a| && |multiset(b)| == |b|;
  }

  lemma OneElement<T>(a: seq<T>, b: seq<T>)
    requires |a| == 1 && multiset(b) == multiset(a)
    ensures b == a
  {
    SameSize(a, b);
    assert b == [b[0]] && a == [a[0]];
    assert b[0] in multiset(a);
  }

  /** Every reordering of `xs` is answered alike. */
  ghost predicate OrderFree<A(!new), B>(f: seq<A> -> B, xs: seq<A>) {
    forall ys :: multiset(ys) == multiset(xs) ==> f(ys) == f(xs)
  }

  lemma OneIsOrderFree<A(!new), B>(f: seq<A> -> B, xs: seq<A>)
    requires |xs| == 1
    ensures OrderFree(f, xs)
  {
    forall ys | multiset(ys) == multiset(xs) ensures f(ys) == f(xs) {
      OneElement(xs, ys);
    }
  }

  lemma OnlyElement<T>(xs: seq<T>, x: T)
    requires x in xs && |xs| <= 1
    ensures xs == [x]
  {
  }

  lemma {:induction false} FlatMapNothing<A, B>(f: A -> seq<B>, xs: seq<A>)
    requires forall x :: x in xs ==> f(x) == []
    ensures FlatMap(f, xs) == []
  {
    if xs != [] {
      FlatMapNothing(f, xs[..|xs| - 1]);
      assert xs[|xs| - 1] in xs;
    }
  }
}
