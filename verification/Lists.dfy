/** Lists gathered element by element. */
module Lists {
  lemma Regroup<A>(a: seq<A>, b: seq<A>, c: seq<A>)
    ensures a + b + c == a + (b + c)
  {
  }

  lemma Regroup4<A>(a: seq<A>, b: seq<A>, c: seq<A>, d: seq<A>)
    ensures a + b + c + d == a + (b + c + d)
  {
  }

  function FlatMap<A, B>(f: A -> seq<B>, xs: seq<A>): seq<B> {
    if xs == [] then [] else FlatMap(f, xs[..|xs| - 1]) + f(xs[|xs| - 1])
  }

  lemma FlatMapSnoc<A, B>(f: A -> seq<B>, xs: seq<A>, x: A)
    ensures FlatMap(f, xs + [x]) == FlatMap(f, xs) + f(x)
  {
    assert (xs + [x])[..|xs|] == xs;
  }

  lemma {:induction false} FlatMapConcat<A, B>(f: A -> seq<B>, xs: seq<A>, ys: seq<A>)
    ensures FlatMap(f, xs + ys) == FlatMap(f, xs) + FlatMap(f, ys)
    decreases |ys|
  {
    if ys == [] {
      assert xs + ys == xs;
    } else {
      var n := |ys| - 1;
      assert xs + ys == (xs + ys[..n]) + [ys[n]];
      FlatMapSnoc(f, xs + ys[..n], ys[n]);
      FlatMapConcat(f, xs, ys[..n]);
    }
  }

  lemma FlatMapOne<A, B>(f: A -> seq<B>, x: A)
    ensures FlatMap(f, [x]) == f(x)
  {
    assert [x][..0] == [];
  }

  /** What one element contributes is part of the whole. */
  lemma {:induction false} FlatMapMember<A, B>(f: A -> seq<B>, xs: seq<A>, k: nat, b: B)
    requires k < |xs| && b in f(xs[k])
    ensures b in FlatMap(f, xs)
    decreases |xs|
  {
    var n := |xs| - 1;
    if k < n {
      FlatMapMember(f, xs[..n], k, b);
    }
  }

  /** What is gathered comes from some element. */
  lemma {:induction false} FlatMapSource<A, B>(f: A -> seq<B>, xs: seq<A>, b: B) returns (k: nat)
    requires b in FlatMap(f, xs)
    ensures k < |xs| && b in f(xs[k])
    decreases |xs|
  {
    var n := |xs| - 1;
    if b in f(xs[n]) {
      k := n;
    } else {
      k := FlatMapSource(f, xs[..n], b);
    }
  }

  predicate NoDuplicates<A(==)>(xs: seq<A>) {
    forall i, j :: 0 <= i < j < |xs| ==> xs[i] != xs[j]
  }

  predicate SameElements<A(==)>(xs: seq<A>, ys: seq<A>) {
    (forall i :: 0 <= i < |xs| ==> xs[i] in ys) && (forall i :: 0 <= i < |ys| ==> ys[i] in xs)
  }

  lemma {:induction false} FlatMapRemove<A, B>(f: A -> seq<B>, xs: seq<A>, k: nat)
    requires k < |xs|
    ensures multiset(FlatMap(f, xs)) == multiset(FlatMap(f, xs[..k] + xs[k + 1..])) + multiset(f(xs[k]))
  {
    assert xs == (xs[..k] + [xs[k]]) + xs[k + 1..];
    FlatMapConcat(f, xs[..k] + [xs[k]], xs[k + 1..]);
    FlatMapSnoc(f, xs[..k], xs[k]);
    FlatMapConcat(f, xs[..k], xs[k + 1..]);
  }

  lemma RemovedElements<A>(xs: seq<A>, ys: seq<A>, k: nat)
    requires NoDuplicates(xs) && NoDuplicates(ys) && SameElements(xs, ys)
    requires k < |ys| && |xs| > 0 && ys[k] == xs[|xs| - 1]
    ensures var rest := ys[..k] + ys[k + 1..];
      NoDuplicates(xs[..|xs| - 1]) && NoDuplicates(rest) && SameElements(xs[..|xs| - 1], rest)
  {
    var n, rest := |xs| - 1, ys[..k] + ys[k + 1..];
    forall i | 0 <= i < n
      ensures xs[..n][i] in rest
    {
      assert xs[i] in ys;
      var j :| 0 <= j < |ys| && ys[j] == xs[i];
      assert rest[if j < k then j else j - 1] == xs[i];
    }
    forall j | 0 <= j < |rest|
      ensures rest[j] in xs[..n]
    {
      var y := ys[if j < k then j else j + 1];
      assert rest[j] == y && y in xs;
      var i :| 0 <= i < |xs| && xs[i] == y;
      assert xs[..n][i] == y;
    }
  }

  /** Two duplicate-free lists of the same elements gather the same things, order aside. */
  lemma {:induction false} FlatMapPermutation<A, B>(f: A -> seq<B>, xs: seq<A>, ys: seq<A>)
    requires NoDuplicates(xs) && NoDuplicates(ys) && SameElements(xs, ys)
    ensures multiset(FlatMap(f, xs)) == multiset(FlatMap(f, ys))
    decreases |xs|
  {
    if xs != [] {
      var n := |xs| - 1;
      assert xs[n] in ys;
      var k :| 0 <= k < |ys| && ys[k] == xs[n];
      var rest := ys[..k] + ys[k + 1..];
      RemovedElements(xs, ys, k);
      FlatMapPermutation(f, xs[..n], rest);
      FlatMapRemove(f, ys, k);
    }
  }

  /** Equal multisets of elements gather equal multisets. */
  lemma {:induction false} FlatMapMultiset<A, B>(f: A -> seq<B>, xs: seq<A>, ys: seq<A>)
    requires multiset(xs) == multiset(ys)
    ensures multiset(FlatMap(f, xs)) == multiset(FlatMap(f, ys))
    decreases |xs|
  {
    if xs == [] {
      assert |multiset(ys)| == 0;
    } else {
      var n := |xs| - 1;
      assert xs == xs[..n] + [xs[n]];
      assert xs[n] in multiset(ys);
      var k :| 0 <= k < |ys| && ys[k] == xs[n];
      var rest := ys[..k] + ys[k + 1..];
      assert ys == ys[..k] + [ys[k]] + ys[k + 1..];
      assert multiset(rest) == multiset(ys) - multiset{xs[n]};
      assert multiset(xs[..n]) == multiset(xs) - multiset{xs[n]};
      FlatMapMultiset(f, xs[..n], rest);
      FlatMapRemove(f, ys, k);
    }
  }
}
