/** Unsigned machine words as numbers, their bitwise exclusive-or, and their bits as coefficients. */
module Words {
  import opened Gf2

  function Pow2(n: nat): (p: nat)
    ensures p > 0
  {
    if n == 0 then 1 else 2 * Pow2(n - 1)
  }

  lemma Widths()
    ensures Pow2(4) == 0x10 && Pow2(8) == 0x100 && Pow2(15) == 0x8000 && Pow2(16) == 0x1_0000
  {
    assert Pow2(8) == 0x10 * Pow2(4);
    assert Pow2(12) == 0x10 * Pow2(8);
    assert Pow2(16) == 0x10 * Pow2(12);
  }

  /** Bitwise exclusive-or. */
  function Xor(a: nat, b: nat): nat {
    if a == 0 && b == 0 then 0
    else 2 * Xor(a / 2, b / 2) + if a % 2 != b % 2 then 1 else 0
  }

  /** The low `n` bits of `v`, most significant first. */
  function Bits(v: nat, n: nat): (p: Poly)
    ensures |p| == n
  {
    if n == 0 then [] else Bits(v / 2, n - 1) + [v % 2 == 1]
  }

  function Value(p: Poly): nat {
    if p == [] then 0 else 2 * Value(p[..|p| - 1]) + if p[|p| - 1] then 1 else 0
  }

  lemma {:induction false} XorBits(a: nat, b: nat, n: nat)
    ensures Bits(Xor(a, b), n) == Add(Bits(a, n), Bits(b, n))
  {
    if n > 0 {
      XorBits(a / 2, b / 2, n - 1);
      assert Xor(a, b) / 2 == Xor(a / 2, b / 2);
    }
  }

  lemma {:induction false} XorBound(a: nat, b: nat, n: nat)
    requires a < Pow2(n) && b < Pow2(n)
    ensures Xor(a, b) < Pow2(n)
  {
    if n > 0 {
      XorBound(a / 2, b / 2, n - 1);
    }
  }

  /** Words of one width are equal when their bits are. */
  lemma {:induction false} ValueOfBits(v: nat, n: nat)
    requires v < Pow2(n)
    ensures Value(Bits(v, n)) == v
  {
    if n > 0 {
      ValueOfBits(v / 2, n - 1);
      assert Bits(v, n)[..n - 1] == Bits(v / 2, n - 1);
    }
  }

  lemma SameWord(v: nat, w: nat, n: nat)
    requires v < Pow2(n) && w < Pow2(n)
    requires Bits(v, n) == Bits(w, n)
    ensures v == w
  {
    ValueOfBits(v, n);
    ValueOfBits(w, n);
  }

  lemma {:induction false} BitsOfZero(n: nat)
    ensures Bits(0, n) == Zeros(n)
  {
    if n > 0 {
      BitsOfZero(n - 1);
    }
  }

  /** A word made of a high part and a low part of `k` bits. */
  lemma {:induction false} JoinBits(high: nat, low: nat, n: nat, k: nat)
    requires low < Pow2(k)
    ensures Bits(high * Pow2(k) + low, n + k) == Bits(high, n) + Bits(low, k)
  {
    if k == 0 {
      assert high * Pow2(0) + low == high;
    } else {
      JoinBits(high, low / 2, n, k - 1);
      var v := high * Pow2(k) + low;
      assert high * Pow2(k) == 2 * (high * Pow2(k - 1));
      assert v / 2 == high * Pow2(k - 1) + low / 2 && v % 2 == low % 2;
    }
  }

  lemma JoinNibble(high: nat, low: nat, n: nat)
    requires low < 0x10
    ensures Bits(0x10 * high + low, n + 4) == Bits(high, n) + Bits(low, 4)
  {
    Widths();
    JoinBits(high, low, n, 4);
  }

  lemma JoinOctet(high: nat, low: nat, n: nat)
    requires low < 0x100
    ensures Bits(0x100 * high + low, n + 8) == Bits(high, n) + Bits(low, 8)
  {
    Widths();
    JoinBits(high, low, n, 8);
  }

  /** The bits of a word are the bit above and the low bits. */
  lemma {:induction false} TopAndRest(v: nat, n: nat)
    ensures Bits(v, n + 1)[1..] == Bits(v, n)
  {
    if n > 0 {
      TopAndRest(v / 2, n - 1);
      assert Bits(v, n + 1)[1..] == Bits(v / 2, n)[1..] + [v % 2 == 1];
    }
  }

  lemma {:induction false} TopBit(v: nat, n: nat)
    requires v < Pow2(n + 1)
    ensures Bits(v, n + 1)[0] == (v >= Pow2(n))
  {
    if n > 0 {
      TopBit(v / 2, n - 1);
      assert Bits(v, n + 1)[0] == Bits(v / 2, n)[0];
    }
  }

  /** Bits above the width do not show. */
  lemma {:induction false} DropHigh(v: nat, n: nat)
    requires v >= Pow2(n)
    ensures Bits(v - Pow2(n), n) == Bits(v, n)
  {
    if n > 0 {
      DropHigh(v / 2, n - 1);
      assert (v - Pow2(n)) / 2 == v / 2 - Pow2(n - 1);
    }
  }
}
