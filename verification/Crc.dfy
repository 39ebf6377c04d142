/**
 * The descriptor CRC of ECMA-167 part 3, section 7.2: polynomial 0x1021,
 * initial value 0, no reflection and no final exclusive-or.
 *
 * `CrcOf` is the register machine; `Feed` is the same machine on coefficients,
 * where the theory is.
 */
module Crc {
  import opened Bytes
  import opened Gf2
  import opened Words

  // ----- the register machine -----

  function Xor16(a: U16, b: U16): U16 {
    Widths();
    XorBound(a, b, 16);
    Xor(a, b)
  }

  /** One turn of the inner loop. */
  function Shift(c: U16): U16 {
    if c >= 0x8000 then Xor16((2 * c) % 0x1_0000, 0x1021) else (2 * c) % 0x1_0000
  }

  function ShiftTimes(c: U16, n: nat): U16 {
    if n == 0 then c else Shift(ShiftTimes(c, n - 1))
  }

  function CrcOf(body: seq<byte>): U16 {
    if body == [] then 0
    else ShiftTimes(Xor16(CrcOf(body[..|body| - 1]), 0x100 * body[|body| - 1] as int), 8)
  }

  method Ecma167Crc(body: seq<byte>) returns (crc: U16)
    ensures crc == CrcOf(body)
  {
    crc := 0;
    for i := 0 to |body|
      invariant crc == CrcOf(body[..i])
    {
      crc := Xor16(crc, 0x100 * body[i] as int);
      ghost var start := crc;
      for k := 0 to 8
        invariant crc == ShiftTimes(start, k)
      {
        if crc >= 0x8000 {
          crc := Xor16((2 * crc) % 0x1_0000, 0x1021);
        } else {
          crc := (2 * crc) % 0x1_0000;
        }
      }
      assert body[..i + 1][..i] == body[..i];
    }
    assert body[..|body|] == body;
  }

  // ----- the machine on coefficients -----

  /** x^16 + x^12 + x^5 + 1. */
  const GENERATOR: Poly := [
    true, false, false, false, true, false, false, false, false,
    false, false, true, false, false, false, false, true]

  /** The generator below x^16. */
  const LOW: Poly := GENERATOR[1..]

  /** The zero register. */
  const CLEAR: Poly := Zeros(|LOW|)

  /** A message is read as one polynomial, first byte first, high bit first. */
  function MessageBits(body: seq<byte>): (p: Poly)
    ensures |p| == 8 * |body|
  {
    if body == [] then []
    else MessageBits(body[..|body| - 1]) + Bits(body[|body| - 1], 8)
  }

  /** Take in one message coefficient. */
  function Step(r: Poly, b: bool): (s: Poly)
    requires |r| == 16
    ensures |s| == 16
  {
    Add(r[1..] + [false], Scale(r[0] != b, LOW))
  }

  function Feed(r: Poly, m: Poly): (s: Poly)
    requires |r| == 16
    ensures |s| == 16
  {
    if m == [] then r else Step(Feed(r, m[..|m| - 1]), m[|m| - 1])
  }

  lemma {:induction false} FeedConcat(r: Poly, a: Poly, b: Poly)
    requires |r| == 16
    ensures Feed(r, a + b) == Feed(Feed(r, a), b)
  {
    if b == [] {
      assert a + b == a;
    } else {
      var n := |b| - 1;
      assert (a + b)[..|a + b| - 1] == a + b[..n];
      FeedConcat(r, a, b[..n]);
    }
  }

  lemma NibbleBits(v: nat)
    ensures Bits(v, 4) == [v / 8 % 2 == 1, v / 4 % 2 == 1, v / 2 % 2 == 1, v % 2 == 1]
  {
    assert Bits(v, 4) == Bits(v / 2, 3) + [v % 2 == 1];
    assert Bits(v / 2, 3) == Bits(v / 4, 2) + [v / 2 % 2 == 1];
    assert Bits(v / 4, 2) == Bits(v / 8, 1) + [v / 4 % 2 == 1];
    assert Bits(v / 8, 1) == [v / 8 % 2 == 1];
  }

  lemma FourNibbles(a: nat, b: nat, c: nat, d: nat, x: nat, y: nat, z: nat, n: nat)
    requires b < 0x10 && c < 0x10 && d < 0x10
    requires x == 0x10 * a + b && y == 0x10 * x + c && z == 0x10 * y + d
    ensures Bits(z, n + 4 + 4 + 4) == Bits(a, n) + Bits(b, 4) + Bits(c, 4) + Bits(d, 4)
  {
    JoinNibble(a, b, n);
    JoinNibble(x, c, n + 4);
    JoinNibble(y, d, n + 4 + 4);
  }

  /** 0x1021 holds the coefficients of the generator below x^16. */
  lemma LowTerms()
    ensures Bits(0x1021, 16) == LOW
  {
    FourNibbles(1, 0, 2, 1, 0x10, 0x102, 0x1021, 4);
    NibbleBits(0);
    NibbleBits(1);
    NibbleBits(2);
  }

  /** A register shift is a step on a zero coefficient. */
  lemma ShiftBits(c: U16)
    ensures Bits(Shift(c), 16) == Step(Bits(c, 16), false)
  {
    var doubled := (2 * c) % 0x1_0000;
    var low := if c >= 0x8000 then c - 0x8000 else c;
    Widths();
    TopBit(c, 15);
    TopAndRest(c, 15);
    if c >= 0x8000 {
      DropHigh(c, 15);
    }
    assert doubled == 2 * low;
    assert Bits(doubled, 16) == Bits(c, 16)[1..] + [false];
    if c >= 0x8000 {
      XorBits(doubled, 0x1021, 16);
      LowTerms();
    }
  }

  /** The bits still to come sit above the register and do not disturb the step. */
  lemma StepPending(r: Poly, b: bool, rest: Poly)
    requires |r| == 16 && |rest| == 15
    ensures Step(Add(r, [b] + rest), false) == Add(Step(r, b), rest + [false])
  {
  }

  lemma {:induction false} ShiftTimesBits(c: U16, n: nat)
    ensures Bits(ShiftTimes(c, n), 16) == Feed(Bits(c, 16), Zeros(n))
  {
    if n > 0 {
      ShiftTimesBits(c, n - 1);
      ShiftBits(ShiftTimes(c, n - 1));
      assert Zeros(n)[..n - 1] == Zeros(n - 1);
    }
  }

  lemma FeedOne(r: Poly, b: bool, m: Poly)
    requires |r| == 16
    ensures Feed(r, [b] + m) == Feed(Step(r, b), m)
  {
    assert [b][..0] == [];
    FeedConcat(r, [b], m);
  }

  lemma FeedAboveOne(r: Poly, b: bool, t: Poly, z: Poly)
    requires |r| == 16 && 1 + |t| + |z| == 16
    ensures Feed(Add(r, [b] + t + z), Zeros(1 + |t|)) == Feed(Add(Step(r, b), t + (z + [false])), Zeros(|t|))
  {
    assert [b] + t + z == [b] + (t + z);
    assert t + z + [false] == t + (z + [false]);
    StepPending(r, b, t + z);
    assert Zeros(1 + |t|) == [false] + Zeros(|t|);
    FeedOne(Add(r, [b] + (t + z)), false, Zeros(|t|));
  }

  /** Bits added above the register and shifted through are fed to it. */
  lemma {:induction false} FeedAbove(r: Poly, p: Poly, z: Poly)
    requires |r| == 16 && |p| + |z| == 16
    ensures Feed(Add(r, p + z), Zeros(|p|)) == Add(Feed(r, p), z + Zeros(|p|))
    decreases |p|
  {
    if p == [] {
      assert p + z == z + Zeros(|p|);
    } else {
      var t := p[1..];
      FeedAboveOne(r, p[0], t, z);
      FeedOne(r, p[0], t);
      FeedAbove(Step(r, p[0]), t, z + [false]);
      assert [p[0]] + t == p;
      assert z + [false] + Zeros(|t|) == z + Zeros(|p|);
    }
  }

  lemma AddNothing(r: Poly, z: Poly)
    requires |r| == |z| && forall i :: 0 <= i < |z| ==> !z[i]
    ensures Add(r, z) == r
  {
  }

  lemma AddByte(c: U16, b: byte)
    ensures Bits(ShiftTimes(Xor16(c, 0x100 * b as int), 8), 16) == Feed(Bits(c, 16), Bits(b, 8))
  {
    var r, p := Bits(c, 16), Bits(b, 8);
    var x := Xor16(c, 0x100 * b as int);
    assert Bits(x, 16) == Add(r, p + Zeros(8)) by {
      XorBits(c, 0x100 * b as int, 16);
      JoinOctet(b, 0, 8);
      BitsOfZero(8);
    }
    ShiftTimesBits(x, |p|);
    FeedAbove(r, p, Zeros(8));
    AddNothing(Feed(r, p), Zeros(8) + Zeros(|p|));
  }

  /** The register machine is the coefficient machine. */
  lemma {:induction false} CrcBits(body: seq<byte>)
    ensures Bits(CrcOf(body), 16) == Feed(CLEAR, MessageBits(body))
  {
    if body == [] {
      BitsOfZero(16);
    } else {
      var n := |body| - 1;
      CrcBits(body[..n]);
      AddByte(CrcOf(body[..n]), body[n]);
      FeedConcat(CLEAR, MessageBits(body[..n]), Bits(body[n], 8));
    }
  }

  // ----- the CRC is a polynomial remainder -----

  /** Column `j` of x R + b x^16 = top G + R'. */
  lemma HornerColumn(r: Poly, b: bool, j: int)
    requires |r| == 16
    ensures 0 <= j < 17 ==>
      ((r + [false])[j] != (j == 0 && b)) == (Scale(r[0] != b, GENERATOR)[j] != ([false] + Step(r, b))[j])
  {
  }

  /** Horner's rule: dividing one more coefficient takes one step of the machine. */
  lemma ExtendDivision(m: Poly, q: Poly, r: Poly)
    requires |m| > 0 && |r| == 16
    requires Divides(m[..|m| - 1], GENERATOR, q, r)
    ensures Divides(m, GENERATOR, q + [r[0] != m[|m| - 1]], Step(r, m[|m| - 1]))
  {
    var n, b := |m| - 1, m[|m| - 1];
    var top := r[0] != b;
    var p := Mul(q, GENERATOR);
    var term := Zeros(n) + Scale(top, GENERATOR);
    assert Mul(q + [top], GENERATOR) == Add(p + [false], term) by {
      assert (q + [top])[..n] == q;
    }
    var prior, next := Zeros(n) + r, Zeros(n + 1) + Step(r, b);
    var rhs := Add(Add(p + [false], term), next);
    forall i | 0 <= i < n + 17
      ensures (m + CLEAR)[i] == rhs[i]
    {
      assert i < n + 16 ==> (m[..n] + CLEAR)[i] == Add(p, prior)[i];
      HornerColumn(r, b, i - n);
    }
  }

  lemma {:induction false} FeedDivides(m: Poly) returns (q: Poly)
    ensures Divides(m, GENERATOR, q, Feed(CLEAR, m))
  {
    if m == [] {
      q := [];
      assert m + CLEAR == Add(Mul(q, GENERATOR), Zeros(0) + CLEAR);
    } else {
      var n := |m| - 1;
      q := FeedDivides(m[..n]);
      ExtendDivision(m, q, Feed(CLEAR, m[..n]));
      q := q + [Feed(CLEAR, m[..n])[0] != m[n]];
    }
  }

  /** crc(m) is the one polynomial of degree below 16 congruent to m(x) x^16. */
  lemma CrcIsRemainder(body: seq<byte>, r: U16)
    ensures IsRemainder(MessageBits(body), GENERATOR, Bits(r, 16)) <==> r == CrcOf(body)
  {
    CrcBits(body);
    var q := FeedDivides(MessageBits(body));
    if IsRemainder(MessageBits(body), GENERATOR, Bits(r, 16)) {
      RemainderUnique(MessageBits(body), GENERATOR, Bits(r, 16), Bits(CrcOf(body), 16));
      Widths();
      SameWord(r, CrcOf(body), 16);
    }
  }

  // ----- what the CRC detects -----

  function XorByte(a: byte, b: byte): byte {
    Widths();
    XorBound(a, b, 8);
    Xor(a, b)
  }

  function XorBytes(a: seq<byte>, b: seq<byte>): (e: seq<byte>)
    requires |a| == |b|
    ensures |e| == |a|
  {
    seq(|a|, i requires 0 <= i < |a| => XorByte(a[i], b[i]))
  }

  lemma {:induction false} MessageBitsXor(a: seq<byte>, b: seq<byte>)
    requires |a| == |b|
    ensures MessageBits(XorBytes(a, b)) == Add(MessageBits(a), MessageBits(b))
  {
    if a != [] {
      var n := |a| - 1;
      assert XorBytes(a, b)[..n] == XorBytes(a[..n], b[..n]);
      MessageBitsXor(a[..n], b[..n]);
      XorBits(a[n], b[n], 8);
    }
  }

  lemma {:induction false} MessageBitsConcat(a: seq<byte>, b: seq<byte>)
    ensures MessageBits(a + b) == MessageBits(a) + MessageBits(b)
  {
    if b == [] {
      assert a + b == a;
    } else {
      var n := |b| - 1;
      assert (a + b)[..|a + b| - 1] == a + b[..n];
      MessageBitsConcat(a, b[..n]);
    }
  }

  lemma {:induction false} SameMessage(a: seq<byte>, b: seq<byte>)
    requires |a| == |b| && MessageBits(a) == MessageBits(b)
    ensures a == b
  {
    if a != [] {
      var n := |a| - 1;
      assert MessageBits(a) == MessageBits(a[..n]) + Bits(a[n], 8);
      assert MessageBits(b) == MessageBits(b[..n]) + Bits(b[n], 8);
      assert MessageBits(a)[..8 * n] == MessageBits(a[..n]) && MessageBits(b)[..8 * n] == MessageBits(b[..n]);
      assert MessageBits(a)[8 * n..] == Bits(a[n], 8) && MessageBits(b)[8 * n..] == Bits(b[n], 8);
      SameMessage(a[..n], b[..n]);
      Widths();
      SameWord(a[n], b[n], 8);
      assert a == a[..n] + [a[n]] && b == b[..n] + [b[n]];
    }
  }

  /** The CRC is linear over equal-length messages. */
  lemma CrcLinear(a: seq<byte>, b: seq<byte>)
    requires |a| == |b|
    ensures CrcOf(XorBytes(a, b)) == Xor16(CrcOf(a), CrcOf(b))
  {
    CrcIsRemainder(a, CrcOf(a));
    CrcIsRemainder(b, CrcOf(b));
    RemainderAdd(MessageBits(a), MessageBits(b), GENERATOR, Bits(CrcOf(a), 16), Bits(CrcOf(b), 16));
    MessageBitsXor(a, b);
    XorBits(CrcOf(a), CrcOf(b), 16);
    CrcIsRemainder(XorBytes(a, b), Xor16(CrcOf(a), CrcOf(b)));
  }

  lemma {:induction false} XorZero(a: nat, b: nat)
    ensures Xor(a, b) == 0 <==> a == b
  {
    if a != 0 || b != 0 {
      XorZero(a / 2, b / 2);
    }
  }

  /** Two messages collide exactly when the generator divides their difference. */
  lemma CrcCollision(a: seq<byte>, b: seq<byte>)
    requires |a| == |b|
    ensures CrcOf(a) == CrcOf(b) <==> IsRemainder(MessageBits(XorBytes(a, b)), GENERATOR, CLEAR)
  {
    CrcLinear(a, b);
    XorZero(CrcOf(a), CrcOf(b));
    BitsOfZero(16);
    CrcIsRemainder(XorBytes(a, b), 0);
  }

  lemma {:induction false} FeedZeros(n: nat)
    ensures Feed(CLEAR, Zeros(n)) == CLEAR
  {
    if n > 0 {
      assert Zeros(n)[..n - 1] == Zeros(n - 1);
      FeedZeros(n - 1);
    }
  }

  lemma {:induction false} MessageBitsFill(n: nat)
    ensures MessageBits(Fill(n)) == Zeros(8 * n)
  {
    if n > 0 {
      assert Fill(n)[..n - 1] == Fill(n - 1);
      MessageBitsFill(n - 1);
      BitsOfZero(8);
    }
  }

  /** Leading zero bytes do not show in the CRC. */
  lemma CrcLeadingZeros(n: nat, body: seq<byte>)
    ensures CrcOf(Fill(n) + body) == CrcOf(body)
  {
    CrcBits(Fill(n) + body);
    CrcBits(body);
    MessageBitsConcat(Fill(n), body);
    MessageBitsFill(n);
    FeedConcat(CLEAR, Zeros(8 * n), MessageBits(body));
    FeedZeros(8 * n);
    Widths();
    SameWord(CrcOf(Fill(n) + body), CrcOf(body), 16);
  }

  lemma FeedWhole(r: Poly, p: Poly)
    requires |r| == 16 && |p| == 16
    ensures Feed(Add(r, p), Zeros(|p|)) == Feed(r, p)
  {
    FeedAbove(r, p, []);
    assert p + [] == p;
    AddNothing(Feed(r, p), [] + Zeros(|p|));
  }

  lemma AddSelf(r: Poly)
    requires |r| == 16
    ensures Add(r, r) == CLEAR
  {
  }

  /** Feeding a register its own bits empties it. */
  lemma FeedSelf(r: Poly)
    requires |r| == 16
    ensures Feed(r, r) == CLEAR
  {
    FeedWhole(r, r);
    AddSelf(r);
    FeedZeros(|r|);
  }

  /** A word stored high byte first. */
  function BigEndian16(c: U16): seq<byte> {
    [c / 0x100, c % 0x100]
  }

  lemma BigEndianBits(c: U16)
    ensures MessageBits(BigEndian16(c)) == Bits(c, 16)
  {
    var tail := BigEndian16(c);
    assert tail[..1] == [c / 0x100] && tail[..1][..0] == [];
    assert MessageBits(tail[..1]) == MessageBits([]) + Bits(c / 0x100, 8);
    JoinOctet(c / 0x100, c % 0x100, 8);
  }

  /** A message followed by its CRC, high byte first, has CRC 0. */
  lemma CrcCodeword(body: seq<byte>)
    ensures CrcOf(body + BigEndian16(CrcOf(body))) == 0
  {
    var c := CrcOf(body);
    var m := body + BigEndian16(c);
    CrcBits(body);
    CrcBits(m);
    BigEndianBits(c);
    MessageBitsConcat(body, BigEndian16(c));
    FeedConcat(CLEAR, MessageBits(body), Bits(c, 16));
    FeedSelf(Bits(c, 16));
    BitsOfZero(16);
    Widths();
    SameWord(CrcOf(m), 0, 16);
  }

  lemma StepInjective(s: Poly)
    requires |s| == 16 && Step(s, false) == CLEAR
    ensures s == CLEAR
  {
    assert !Step(s, false)[15];
    forall i | 1 <= i < 16
      ensures !s[i]
    {
      assert !Step(s, false)[i - 1];
    }
  }

  /** No nonzero register shifts to zero. */
  lemma {:induction false} FeedZerosInjective(r: Poly, n: nat)
    requires |r| == 16 && Feed(r, Zeros(n)) == CLEAR
    ensures r == CLEAR
  {
    if n > 0 {
      assert Zeros(n)[..n - 1] == Zeros(n - 1);
      var s := Feed(r, Zeros(n - 1));
      StepInjective(s);
      FeedZerosInjective(r, n - 1);
    }
  }

  /** Zeros around a window do not help it reach the zero register. */
  lemma FeedWindow(w: Poly, before: nat, after: nat)
    requires Feed(CLEAR, Zeros(before) + w + Zeros(after)) == CLEAR
    ensures Feed(CLEAR, w) == CLEAR
  {
    FeedConcat(CLEAR, Zeros(before) + w, Zeros(after));
    FeedZerosInjective(Feed(CLEAR, Zeros(before) + w), after);
    FeedConcat(CLEAR, Zeros(before), w);
    FeedZeros(before);
  }

  predicate IsZeroOutside(e: Poly, at: nat, to: nat) {
    at <= to <= |e| && forall i :: 0 <= i < |e| && !(at <= i < to) ==> !e[i]
  }

  lemma Window(e: Poly, at: nat, to: nat)
    requires IsZeroOutside(e, at, to)
    ensures e == Zeros(at) + e[at..to] + Zeros(|e| - to)
  {
  }

  /** At most 16 coefficients that empty the register are all zero. */
  lemma ShortWindow(w: Poly)
    requires |w| <= 16 && Feed(CLEAR, w) == CLEAR
    ensures w == Zeros(|w|)
  {
    var q := FeedDivides(w);
    assert IsRemainder(w, GENERATOR, CLEAR);
    ShortMessageHasRemainder(w, GENERATOR);
  }

  lemma FeedAround(e: Poly, at: nat, to: nat)
    requires IsZeroOutside(e, at, to)
    ensures Feed(CLEAR, Zeros(at) + e[at..to] + Zeros(|e| - to)) == Feed(CLEAR, e)
  {
    Window(e, at, to);
  }

  lemma WindowIsZero(e: Poly, at: nat, to: nat)
    requires IsZeroOutside(e, at, to) && to - at <= 16
    requires Feed(CLEAR, e) == CLEAR
    ensures e[at..to] == Zeros(to - at)
  {
    FeedAround(e, at, to);
    FeedWindow(e[at..to], at, |e| - to);
    ShortWindow(e[at..to]);
  }

  lemma ZeroEverywhere(e: Poly, at: nat, to: nat)
    requires IsZeroOutside(e, at, to) && e[at..to] == Zeros(to - at)
    ensures e == Zeros(|e|)
  {
    forall i | 0 <= i < |e|
      ensures !e[i]
    {
      if at <= i < to {
        assert e[i] == e[at..to][i - at];
      }
    }
  }

  /** A burst of at most 16 bits, anywhere in a message, is not a multiple of the generator. */
  lemma BurstIsNotMultiple(e: Poly, at: nat)
    requires at <= |e| && forall i :: 0 <= i < |e| && !(at <= i < at + 16) ==> !e[i]
    requires Feed(CLEAR, e) == CLEAR
    ensures e == Zeros(|e|)
  {
    var to := Bytes.Min(at + 16, |e|);
    assert IsZeroOutside(e, at, to);
    WindowIsZero(e, at, to);
    ZeroEverywhere(e, at, to);
  }

  /** Any change confined to 16 consecutive bits changes the CRC. */
  lemma CrcDetectsBurst(a: seq<byte>, b: seq<byte>, at: nat)
    requires |a| == |b| && a != b
    requires forall i :: 0 <= i < 8 * |a| && !(at <= i < at + 16) ==> MessageBits(a)[i] == MessageBits(b)[i]
    ensures CrcOf(a) != CrcOf(b)
  {
    if CrcOf(a) == CrcOf(b) {
      var x := XorBytes(a, b);
      MessageBitsXor(a, b);
      CrcLinear(a, b);
      XorZero(CrcOf(a), CrcOf(b));
      CrcBits(x);
      BitsOfZero(16);
      BurstIsNotMultiple(MessageBits(x), if at <= 8 * |a| then at else 8 * |a|);
      forall i | 0 <= i < 8 * |a|
        ensures MessageBits(a)[i] == MessageBits(b)[i]
      {
        assert !MessageBits(x)[i];
      }
      SameMessage(a, b);
    }
  }

  lemma GeneratorParity()
    ensures !Parity(GENERATOR)
  {
    var low := [false, false, false, false, false, false, false];
    assert low == Zeros(7) && [false, false, false] == Zeros(3) && [false, false, false, false] == Zeros(4);
    assert GENERATOR == [true] + Zeros(3) + [true] + Zeros(6) + [true] + Zeros(4) + [true];
    ParityZeros(3);
    ParityZeros(4);
    ParityZeros(6);
    assert Parity([true]);
    ParityConcat([true], Zeros(3));
    ParityConcat([true] + Zeros(3), [true]);
    ParityConcat([true] + Zeros(3) + [true], Zeros(6));
    ParityConcat([true] + Zeros(3) + [true] + Zeros(6), [true]);
    ParityConcat([true] + Zeros(3) + [true] + Zeros(6) + [true], Zeros(4));
    ParityConcat([true] + Zeros(3) + [true] + Zeros(6) + [true] + Zeros(4), [true]);
  }

  /** The CRC has the bit parity of its message. */
  lemma CrcParity(body: seq<byte>)
    ensures Parity(Bits(CrcOf(body), 16)) == Parity(MessageBits(body))
  {
    GeneratorParity();
    CrcIsRemainder(body, CrcOf(body));
    RemainderParity(MessageBits(body), GENERATOR, Bits(CrcOf(body), 16));
  }

  /** Any odd number of flipped bits changes the CRC. */
  lemma CrcDetectsOddFlips(a: seq<byte>, b: seq<byte>)
    requires |a| == |b| && Parity(MessageBits(XorBytes(a, b)))
    ensures CrcOf(a) != CrcOf(b)
  {
    MessageBitsXor(a, b);
    ParityAdd(MessageBits(a), MessageBits(b));
    CrcParity(a);
    CrcParity(b);
  }
}
