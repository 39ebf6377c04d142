/** Polynomials over GF(2), the coefficient of the highest power first. */
module Gf2 {
  type Poly = seq<bool>

  function Zeros(n: nat): (z: Poly)
    ensures |z| == n && forall i :: 0 <= i < n ==> !z[i]
  {
    seq(n, _ => false)
  }

  function Add(a: Poly, b: Poly): (s: Poly)
    requires |a| == |b|
    ensures |s| == |a| && forall i :: 0 <= i < |a| ==> s[i] == (a[i] != b[i])
  {
    seq(|a|, i requires 0 <= i < |a| => a[i] != b[i])
  }

  function Scale(c: bool, d: Poly): (p: Poly)
    ensures |p| == |d|
  {
    if c then d else Zeros(|d|)
  }

  /** Horner's product: (q x + c) d = (q d) x + c d. */
  function Mul(q: Poly, d: Poly): (p: Poly)
    requires |d| > 0
    ensures |p| == |q| + |d| - 1
  {
    if q == [] then Zeros(|d| - 1)
    else
      var n := |q| - 1;
      Add(Mul(q[..n], d) + [false], Zeros(n) + Scale(q[n], d))
  }

  /** `m(x) x^k == q(x) g(x) + r(x)`, where `k` is the degree of `g` and `r` has lower degree. */
  ghost predicate Divides(m: Poly, g: Poly, q: Poly, r: Poly)
    requires |g| > 0
  {
    && |r| == |g| - 1
    && |q| == |m|
    && m + Zeros(|r|) == Add(Mul(q, g), Zeros(|m|) + r)
  }

  ghost predicate IsRemainder(m: Poly, g: Poly, r: Poly)
    requires |g| > 0
  {
    exists q :: Divides(m, g, q, r)
  }

  /** The sum of all coefficients, which is the value at x = 1. */
  function Parity(p: Poly): bool {
    if p == [] then false else Parity(p[..|p| - 1]) != p[|p| - 1]
  }

  lemma {:induction false} ParityConcat(a: Poly, b: Poly)
    ensures Parity(a + b) == (Parity(a) != Parity(b))
  {
    if b == [] {
      assert a + b == a;
    } else {
      var n := |b| - 1;
      assert (a + b)[..|a + b| - 1] == a + b[..n];
      ParityConcat(a, b[..n]);
    }
  }

  lemma {:induction false} ParityAdd(a: Poly, b: Poly)
    requires |a| == |b|
    ensures Parity(Add(a, b)) == (Parity(a) != Parity(b))
  {
    if a != [] {
      var n := |a| - 1;
      assert Add(a, b)[..n] == Add(a[..n], b[..n]);
      ParityAdd(a[..n], b[..n]);
    }
  }

  lemma {:induction false} ParityZeros(n: nat)
    ensures !Parity(Zeros(n))
  {
    if n > 0 {
      assert Zeros(n)[..n - 1] == Zeros(n - 1);
      ParityZeros(n - 1);
    }
  }

  /** Evaluation at 1 is multiplicative. */
  lemma {:induction false} ParityMul(q: Poly, d: Poly)
    requires |d| > 0
    ensures Parity(Mul(q, d)) == (Parity(q) && Parity(d))
  {
    if q == [] {
      ParityZeros(|d| - 1);
    } else {
      var n := |q| - 1;
      ParityMul(q[..n], d);
      ParityConcat(Mul(q[..n], d), [false]);
      ParityZeros(n);
      ParityZeros(|d|);
      ParityConcat(Zeros(n), Scale(q[n], d));
      ParityAdd(Mul(q[..n], d) + [false], Zeros(n) + Scale(q[n], d));
    }
  }

  lemma SumOfSteps(p: Poly, q: Poly, n: nat, x: bool, y: bool, d: Poly)
    requires |p| == |q| && |p| + 1 == n + |d|
    ensures Add(Add(p, q) + [false], Zeros(n) + Scale(x != y, d)) ==
      Add(Add(p + [false], Zeros(n) + Scale(x, d)), Add(q + [false], Zeros(n) + Scale(y, d)))
  {
  }

  lemma {:induction false} MulAdd(a: Poly, b: Poly, d: Poly)
    requires |a| == |b| && |d| > 0
    ensures Mul(Add(a, b), d) == Add(Mul(a, d), Mul(b, d))
  {
    if a != [] {
      var n := |a| - 1;
      assert Add(a, b)[..n] == Add(a[..n], b[..n]);
      MulAdd(a[..n], b[..n], d);
      SumOfSteps(Mul(a[..n], d), Mul(b[..n], d), n, a[n], b[n], d);
    }
  }

  function Min(a: nat, b: nat): nat {
    if a <= b then a else b
  }

  lemma {:induction false} LeadingZeros(q: Poly, d: Poly, k: nat)
    requires |d| > 0 && k <= |q| && forall j :: 0 <= j < k ==> !q[j]
    ensures forall j :: 0 <= j < k ==> !Mul(q, d)[j]
    ensures k == |q| ==> Mul(q, d) == Zeros(|q| + |d| - 1)
  {
    if q != [] {
      var n := |q| - 1;
      LeadingZeros(q[..n], d, Min(k, n));
    }
  }

  /** The product of `q` with a monic `d` starts where `q` starts. */
  lemma {:induction false} LeadingTerm(q: Poly, d: Poly, i: nat)
    requires |d| > 0 && d[0]
    requires i < |q| && q[i] && forall j :: 0 <= j < i ==> !q[j]
    ensures Mul(q, d)[i]
  {
    var n := |q| - 1;
    if i < n {
      LeadingTerm(q[..n], d, i);
    } else {
      LeadingZeros(q[..n], d, n);
    }
  }

  /** The product of `q` with a `d` of nonzero constant term ends where `q` ends. */
  lemma {:induction false} TrailingTerm(q: Poly, d: Poly, i: nat)
    requires |d| > 0 && d[|d| - 1]
    requires i < |q| && q[i] && forall j :: i < j < |q| ==> !q[j]
    ensures Mul(q, d)[i + |d| - 1]
  {
    var n := |q| - 1;
    if i < n {
      TrailingTerm(q[..n], d, i);
    }
  }

  function FirstTrue(q: Poly, from: nat): (k: nat)
    requires from <= |q|
    ensures from <= k <= |q| && (k < |q| ==> q[k])
    ensures forall j :: from <= j < k ==> !q[j]
    decreases |q| - from
  {
    if from == |q| || q[from] then from else FirstTrue(q, from + 1)
  }

  /** A monic divisor has no nonzero multiple of lower degree than itself. */
  lemma SmallMultipleIsZero(q: Poly, g: Poly)
    requires |g| > 0 && g[0]
    requires forall i :: 0 <= i < |q| ==> !Mul(q, g)[i]
    ensures Mul(q, g) == Zeros(|q| + |g| - 1)
  {
    var k := FirstTrue(q, 0);
    if k < |q| {
      LeadingTerm(q, g, k);
    } else {
      LeadingZeros(q, g, |q|);
    }
  }

  function LastTrue(q: Poly, to: nat): (k: int)
    requires to <= |q|
    ensures -1 <= k < to && (k >= 0 ==> q[k])
    ensures forall j :: k < j < to ==> !q[j]
  {
    if to == 0 || q[to - 1] then to - 1 else LastTrue(q, to - 1)
  }

  /** Division by a monic polynomial has one remainder. */
  lemma RemainderUnique(m: Poly, g: Poly, r: Poly, s: Poly)
    requires |g| > 0 && g[0]
    requires IsRemainder(m, g, r) && IsRemainder(m, g, s)
    ensures r == s
  {
    var q :| Divides(m, g, q, r);
    var p :| Divides(m, g, p, s);
    var e := Add(q, p);
    MulAdd(q, p, g);
    forall i | 0 <= i < |m| + |r|
      ensures Mul(e, g)[i] == ((Zeros(|m|) + r)[i] != (Zeros(|m|) + s)[i])
    {
      assert (m + Zeros(|r|))[i] == Add(Mul(q, g), Zeros(|m|) + r)[i];
      assert (m + Zeros(|r|))[i] == Add(Mul(p, g), Zeros(|m|) + s)[i];
    }
    SmallMultipleIsZero(e, g);
    forall i | 0 <= i < |r|
      ensures r[i] == s[i]
    {
      assert Mul(e, g)[|m| + i] == ((Zeros(|m|) + r)[|m| + i] != (Zeros(|m|) + s)[|m| + i]);
    }
  }

  /** Remainders add. */
  lemma RemainderAdd(m: Poly, n: Poly, g: Poly, r: Poly, s: Poly)
    requires |g| > 0 && |m| == |n|
    requires IsRemainder(m, g, r) && IsRemainder(n, g, s)
    ensures IsRemainder(Add(m, n), g, Add(r, s))
  {
    var q :| Divides(m, g, q, r);
    var p :| Divides(n, g, p, s);
    MulAdd(q, p, g);
    var lhs := Add(m, n) + Zeros(|r|);
    var rhs := Add(Mul(Add(q, p), g), Zeros(|m|) + Add(r, s));
    forall i | 0 <= i < |lhs|
      ensures lhs[i] == rhs[i]
    {
      assert (m + Zeros(|r|))[i] == Add(Mul(q, g), Zeros(|m|) + r)[i];
      assert (n + Zeros(|r|))[i] == Add(Mul(p, g), Zeros(|m|) + s)[i];
    }
    assert Divides(Add(m, n), g, Add(q, p), Add(r, s));
  }

  /**
   * When `g` is monic with a nonzero constant term, a nonzero `m` of at most
   * `deg g` coefficients leaves a nonzero remainder.
   */
  lemma ShortMessageHasRemainder(m: Poly, g: Poly)
    requires |g| > 0 && g[|g| - 1] && |m| < |g|
    requires IsRemainder(m, g, Zeros(|g| - 1))
    ensures m == Zeros(|m|)
  {
    var q :| Divides(m, g, q, Zeros(|g| - 1));
    var k := LastTrue(q, |q|);
    if k >= 0 {
      TrailingTerm(q, g, k);
      assert false;
    } else {
      LeadingZeros(q, g, |q|);
      forall i | 0 <= i < |m|
        ensures !m[i]
      {
        assert (m + Zeros(|g| - 1))[i] == Add(Mul(q, g), Zeros(|m|) + Zeros(|g| - 1))[i];
      }
    }
  }

  /** If x + 1 divides `g`, the remainder has the parity of the dividend. */
  lemma RemainderParity(m: Poly, g: Poly, r: Poly)
    requires |g| > 0 && !Parity(g)
    requires IsRemainder(m, g, r)
    ensures Parity(r) == Parity(m)
  {
    var q :| Divides(m, g, q, r);
    ParityZeros(|r|);
    ParityConcat(m, Zeros(|r|));
    ParityZeros(|m|);
    ParityConcat(Zeros(|m|), r);
    ParityMul(q, g);
    ParityAdd(Mul(q, g), Zeros(|m|) + r);
  }
}
