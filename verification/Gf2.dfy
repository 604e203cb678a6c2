/** Bit strings as polynomials over GF(2), the xor of machine words, and the shift register
    that both CRCs of the firmware run (src/frame.c, src/sen5x.c), for any width. */
module Gf2 {

  // ---------------------------------------------------------------- bit strings

  function Xor(a: seq<bool>, b: seq<bool>): (s: seq<bool>)
    requires |a| == |b|
    ensures |s| == |a| && forall i :: 0 <= i < |s| ==> s[i] == (a[i] != b[i])
  {
    seq(|a|, i requires 0 <= i < |a| => a[i] != b[i])
  }

  function Zeros(n: nat): (s: seq<bool>)
    ensures |s| == n && forall i :: 0 <= i < n ==> !s[i]
  {
    seq(n, _ => false)
  }

  function Pow2(n: nat): (p: nat)
    ensures p > 0
  {
    if n == 0 then 1 else 2 * Pow2(n - 1)
  }

  /** The low n bits of a word, most significant first. */
  function BitsOf(x: nat, n: nat): (s: seq<bool>)
    ensures |s| == n
  {
    if n == 0 then [] else BitsOf(x / 2, n - 1) + [x % 2 == 1]
  }

  lemma {:induction false} BitsInjective(x: nat, y: nat, n: nat)
    requires x < Pow2(n) && y < Pow2(n) && BitsOf(x, n) == BitsOf(y, n)
    ensures x == y
  {
    if n == 0 {
    } else {
      var s, t := BitsOf(x, n), BitsOf(y, n);
      assert s[..n - 1] == BitsOf(x / 2, n - 1) && t[..n - 1] == BitsOf(y / 2, n - 1);
      assert s[n - 1] == (x % 2 == 1) && t[n - 1] == (y % 2 == 1);
      BitsInjective(x / 2, y / 2, n - 1);
    }
  }

  function WordOf(s: seq<bool>): (x: nat)
    ensures x < Pow2(|s|)
  {
    if s == [] then 0 else 2 * WordOf(s[..|s| - 1]) + if s[|s| - 1] then 1 else 0
  }

  lemma {:induction false} BitsOfWordOf(s: seq<bool>)
    ensures BitsOf(WordOf(s), |s|) == s
  {
    if s == [] {
    } else {
      BitsOfWordOf(s[..|s| - 1]);
      assert WordOf(s) / 2 == WordOf(s[..|s| - 1]);
    }
  }

  /** The operator ^ of C on unsigned words. */
  function XorWord(a: nat, b: nat): nat {
    if a == 0 && b == 0 then 0 else 2 * XorWord(a / 2, b / 2) + if a % 2 != b % 2 then 1 else 0
  }

  /** ... is xor bit by bit, and stays inside the word. */
  lemma {:induction false} BitsOfXor(a: nat, b: nat, n: nat)
    ensures BitsOf(XorWord(a, b), n) == Xor(BitsOf(a, n), BitsOf(b, n))
    ensures a < Pow2(n) && b < Pow2(n) ==> XorWord(a, b) < Pow2(n)
    decreases n
  {
    if n == 0 {
    } else {
      BitsOfXor(a / 2, b / 2, n - 1);
      assert XorWord(a, b) / 2 == XorWord(a / 2, b / 2);
      assert XorWord(a, b) % 2 == if a % 2 != b % 2 then 1 else 0;
    }
  }

  lemma {:induction false} BitsOfTail(x: nat, n: nat)
    requires n > 0
    ensures BitsOf(x % Pow2(n - 1), n - 1) == BitsOf(x, n)[1..]
    ensures x < Pow2(n) ==> BitsOf(x, n)[0] == (x >= Pow2(n - 1))
  {
    if n == 1 {
    } else {
      BitsOfTail(x / 2, n - 1);
      var p := Pow2(n - 2);
      assert x % (2 * p) / 2 == x / 2 % p && x % (2 * p) % 2 == x % 2 by { HalfMod(x, p); }
    }
  }

  lemma {:induction false} HalfMod(x: nat, p: nat)
    requires p > 0
    ensures x % (2 * p) / 2 == x / 2 % p && x % (2 * p) % 2 == x % 2
  {
    var q, r := x / (2 * p), x % (2 * p);
    assert x == 2 * (p * q) + r;
    assert x / 2 == p * q + r / 2;
    ModUnique(x / 2, p, q, r / 2);
  }

  lemma {:induction false} ModUnique(x: int, d: int, q: int, r: int)
    requires d > 0 && 0 <= r < d && x == d * q + r
    ensures x % d == r && x / d == q
  {
    MulAtLeast(d, x / d - q);
    assert d * (x / d - q) == r - x % d;
  }

  lemma MulAtLeast(d: int, k: int)
    requires d > 0
    ensures (k >= 1 ==> d * k >= d) && (k <= -1 ==> d * k <= -d)
  {}

  /** Shifting a word left by one, dropping what leaves it. */
  lemma {:induction false} BitsOfDouble(x: nat, n: nat)
    requires n > 0
    ensures BitsOf(2 * x % Pow2(n), n) == BitsOf(x, n)[1..] + [false]
  {
    var d := 2 * x % Pow2(n);
    HalfMod(2 * x, Pow2(n - 1));
    assert d / 2 == x % Pow2(n - 1) && d % 2 == 0;
    BitsOfTail(x, n);
  }

  lemma {:induction false} BitsOfSplit(hi: nat, lo: nat, n: nat, k: nat)
    requires lo < Pow2(k)
    ensures BitsOf(hi * Pow2(k) + lo, n + k) == BitsOf(hi, n) + BitsOf(lo, k)
    decreases k
  {
    if k == 0 {
    } else {
      var x := hi * Pow2(k) + lo;
      assert x == 2 * (hi * Pow2(k - 1)) + lo;
      assert x / 2 == hi * Pow2(k - 1) + lo / 2 && x % 2 == lo % 2;
      BitsOfSplit(hi, lo / 2, n, k - 1);
    }
  }

  lemma {:induction false} TwoNibbles(hi: nat, lo: nat)
    requires hi < 16 && lo < 16
    ensures BitsOf(0x10 * hi + lo, 8) == BitsOf(hi, 4) + BitsOf(lo, 4)
  {
    assert Pow2(4) == 16;
    BitsOfSplit(hi, lo, 4, 4);
  }

  lemma {:induction false} Nibble(x: nat)
    requires x < 16
    ensures BitsOf(x, 4) == [x / 8 == 1, x / 4 % 2 == 1, x / 2 % 2 == 1, x % 2 == 1]
  {
    assert BitsOf(x / 8, 1) == [x / 8 == 1];
    assert BitsOf(x / 4, 2) == BitsOf(x / 8, 1) + [x / 4 % 2 == 1];
    assert BitsOf(x / 2, 3) == BitsOf(x / 4, 2) + [x / 2 % 2 == 1];
  }

  function Ones(n: nat): (s: seq<bool>)
    ensures |s| == n && forall i :: 0 <= i < n ==> s[i]
  {
    seq(n, _ => true)
  }

  lemma {:induction false} OneBits(n: nat)
    ensures BitsOf(Pow2(n) - 1, n) == Ones(n)
  {
    if n == 0 {
    } else {
      OneBits(n - 1);
      assert (Pow2(n) - 1) / 2 == Pow2(n - 1) - 1 && (Pow2(n) - 1) % 2 == 1;
      assert Ones(n) == Ones(n - 1) + [true];
    }
  }

  // ---------------------------------------------------------------- the shift register

  /** A generator x^n + ..., given by its n low coefficients, with constant term 1. */
  ghost predicate Generator(p: seq<bool>) { p != [] && p[|p| - 1] }

  function Scale(t: bool, p: seq<bool>): (s: seq<bool>)
    ensures |s| == |p| && forall i :: 0 <= i < |s| ==> s[i] == (t && p[i])
  {
    seq(|p|, i requires 0 <= i < |p| => t && p[i])
  }

  function RegShift(p: seq<bool>, r: seq<bool>): (s: seq<bool>)
    requires |r| == |p| > 0
    ensures |s| == |r|
  {
    Xor(r[1..] + [false], Scale(r[0], p))
  }

  function RegShiftN(p: seq<bool>, r: seq<bool>, k: nat): (s: seq<bool>)
    requires |r| == |p| > 0
    ensures |s| == |r|
  {
    if k == 0 then r else RegShift(p, RegShiftN(p, r, k - 1))
  }

  function Step(p: seq<bool>, r: seq<bool>, b: bool): (s: seq<bool>)
    requires |r| == |p| > 0
    ensures |s| == |r|
  {
    RegShift(p, [r[0] != b] + r[1..])
  }

  /** The register after a message of bits, from the register before it. */
  function Residue(p: seq<bool>, r: seq<bool>, bits: seq<bool>): (s: seq<bool>)
    requires |r| == |p| > 0
    ensures |s| == |r|
    decreases |bits|
  {
    if bits == [] then r
    else Step(p, Residue(p, r, bits[..|bits| - 1]), bits[|bits| - 1])
  }

  lemma {:induction false} ResidueCat(p: seq<bool>, r: seq<bool>, a: seq<bool>, b: seq<bool>)
    requires |r| == |p| > 0
    ensures Residue(p, r, a + b) == Residue(p, Residue(p, r, a), b)
    decreases |b|
  {
    if b == [] {
      assert a + b == a;
    } else {
      assert (a + b)[..|a + b| - 1] == a + b[..|b| - 1];
      ResidueCat(p, r, a, b[..|b| - 1]);
    }
  }

  /** Linearity: the register of a sum is the sum of the registers. */
  lemma {:induction false} ResidueLinear(p: seq<bool>, r: seq<bool>, s: seq<bool>, a: seq<bool>, b: seq<bool>)
    requires |r| == |s| == |p| > 0 && |a| == |b|
    ensures Residue(p, Xor(r, s), Xor(a, b)) == Xor(Residue(p, r, a), Residue(p, s, b))
    decreases |a|
  {
    if a == [] {
    } else {
      var k := |a| - 1;
      ResidueLinear(p, r, s, a[..k], b[..k]);
      assert Xor(a, b)[..k] == Xor(a[..k], b[..k]);
      var x, y := Residue(p, r, a[..k]), Residue(p, s, b[..k]);
      StepLinear(p, x, y, a[k], b[k]);
    }
  }

  lemma StepLinear(p: seq<bool>, x: seq<bool>, y: seq<bool>, a: bool, b: bool)
    requires |x| == |y| == |p| > 0
    ensures Step(p, Xor(x, y), a != b) == Xor(Step(p, x, a), Step(p, y, b))
  {}

  /** One step run backwards. */
  function Unstep(p: seq<bool>, r: seq<bool>, b: bool): (s: seq<bool>)
    requires |r| == |p| > 0
    ensures |s| == |r|
  {
    var k := |p| - 1;
    [r[k] != b] + if r[k] then Xor(r, p)[..k] else r[..k]
  }

  lemma StepUnstep(p: seq<bool>, r: seq<bool>, b: bool)
    requires |r| == |p| && Generator(p)
    ensures Step(p, Unstep(p, r, b), b) == r && Unstep(p, Step(p, r, b), b) == r
  {}

  function Unresidue(p: seq<bool>, r: seq<bool>, bits: seq<bool>): (s: seq<bool>)
    requires |r| == |p| > 0
    ensures |s| == |r|
    decreases |bits|
  {
    if bits == [] then r
    else Unresidue(p, Unstep(p, r, bits[|bits| - 1]), bits[..|bits| - 1])
  }

  /** For every message the register is a bijection of the one it started from. */
  lemma {:induction false} ResidueBijective(p: seq<bool>, r: seq<bool>, bits: seq<bool>)
    requires |r| == |p| && Generator(p)
    ensures Residue(p, Unresidue(p, r, bits), bits) == r
    ensures Unresidue(p, Residue(p, r, bits), bits) == r
    decreases |bits|
  {
    if bits == [] {
    } else {
      var k := |bits| - 1;
      StepUnstep(p, r, bits[k]);
      ResidueBijective(p, Unstep(p, r, bits[k]), bits[..k]);
      StepUnstep(p, Residue(p, r, bits[..k]), bits[k]);
      ResidueBijective(p, r, bits[..k]);
    }
  }

  /** Up to a registerful of bits may be xored in at the top at once: what the byte loops do. */
  lemma {:induction false} ResidueTop(p: seq<bool>, r: seq<bool>, w: seq<bool>)
    requires |r| == |p| && |w| <= |p| && p != []
    ensures Residue(p, r, w) == RegShiftN(p, Xor(r, w + Zeros(|p| - |w|)), |w|)
    decreases |w|
  {
    var n := |p|;
    if w == [] {
      assert Xor(r, Zeros(n)) == r;
    } else {
      var k := |w| - 1;
      assert w == w[..k] + [w[k]];
      ResidueTop(p, r, w[..k]);
      StepIsShift(p, Residue(p, r, w[..k]), w[k]);
      ShiftNOneMore(p, r, w[..k], w[k]);
    }
  }

  lemma {:induction false} ShiftNOneMore(p: seq<bool>, r: seq<bool>, w: seq<bool>, b: bool)
    requires |w| < |r| == |p|
    ensures RegShiftN(p, Xor(r, w + [b] + Zeros(|p| - |w| - 1)), |w|)
         == Xor(RegShiftN(p, Xor(r, w + Zeros(|p| - |w|)), |w|), [b] + Zeros(|p| - 1))
  {
    XorSplit(r, w, b);
    ShiftNLinear(p, Xor(r, w + Zeros(|p| - |w|)), Zeros(|w|) + [b] + Zeros(|p| - |w| - 1), |w|);
    ShiftNLate(p, b, |w|);
  }

  lemma XorSplit(r: seq<bool>, w: seq<bool>, b: bool)
    requires |w| < |r|
    ensures Xor(r, w + [b] + Zeros(|r| - |w| - 1))
         == Xor(Xor(r, w + Zeros(|r| - |w|)), Zeros(|w|) + [b] + Zeros(|r| - |w| - 1))
  {}

  lemma StepIsShift(p: seq<bool>, x: seq<bool>, b: bool)
    requires |x| == |p| > 0
    ensures Step(p, x, b) == RegShift(p, Xor(x, [b] + Zeros(|p| - 1)))
    ensures Step(p, x, false) == RegShift(p, x)
  {}

  lemma {:induction false} ShiftNLinear(p: seq<bool>, a: seq<bool>, b: seq<bool>, k: nat)
    requires |a| == |b| == |p| > 0
    ensures RegShiftN(p, Xor(a, b), k) == Xor(RegShiftN(p, a, k), RegShiftN(p, b, k))
  {
    if k == 0 {
    } else {
      ShiftNLinear(p, a, b, k - 1);
      RegShiftLinear(p, RegShiftN(p, a, k - 1), RegShiftN(p, b, k - 1));
    }
  }

  lemma RegShiftLinear(p: seq<bool>, x: seq<bool>, y: seq<bool>)
    requires |x| == |y| == |p| > 0
    ensures RegShift(p, Xor(x, y)) == Xor(RegShift(p, x), RegShift(p, y))
  {}

  /** A lone bit at position k reaches the top after k shifts untouched. */
  lemma {:induction false} ShiftNLate(p: seq<bool>, b: bool, k: nat)
    requires k < |p|
    ensures RegShiftN(p, Zeros(k) + [b] + Zeros(|p| - k - 1), k) == [b] + Zeros(|p| - 1)
  {
    ShiftNFree(p, Zeros(k) + [b] + Zeros(|p| - k - 1), k);
  }

  lemma {:induction false} ShiftNFree(p: seq<bool>, r: seq<bool>, k: nat)
    requires |r| == |p| > 0 && k <= |p| && r[..k] == Zeros(k)
    ensures RegShiftN(p, r, k) == r[k..] + Zeros(k)
  {
    if k > 0 {
      assert r[..k - 1] == r[..k][..k - 1] && !r[..k][k - 1];
      ShiftNFree(p, r, k - 1);
      ShiftZeroTop(p, r[k - 1..] + Zeros(k - 1));
      assert (r[k - 1..] + Zeros(k - 1))[1..] + [false] == r[k..] + Zeros(k);
    } else {
      assert r[0..] + Zeros(0) == r;
    }
  }

  lemma ShiftZeroTop(p: seq<bool>, r: seq<bool>)
    requires |r| == |p| > 0 && !r[0]
    ensures RegShift(p, r) == r[1..] + [false]
  {}

  // ---------------------------------------------------------------- bursts

  /** a and b differ, and only inside n consecutive positions from i on. */
  ghost predicate Burst(a: seq<bool>, b: seq<bool>, i: nat, n: nat) {
    && |a| == |b| && a != b
    && forall j :: 0 <= j < |a| && !(i <= j < i + n) ==> a[j] == b[j]
  }

  /** Every burst no longer than the register changes the residue. */
  lemma {:induction false} BurstDetected(p: seq<bool>, r: seq<bool>, a: seq<bool>, b: seq<bool>, i: nat)
    requires |r| == |p| && Generator(p) && Burst(a, b, i, |p|)
    ensures Residue(p, r, a) != Residue(p, r, b)
  {
    var i := if i <= |a| then i else |a|;
    var j := if i + |p| <= |a| then i + |p| else |a|;
    assert a[..i] == b[..i] && a[j..] == b[j..];
    SplitThree(a, i, j);
    SplitThree(b, i, j);
    BurstInside(p, r, a[..i], a[i..j], b[i..j], a[j..]);
  }

  lemma SplitThree(a: seq<bool>, i: nat, j: nat)
    requires i <= j <= |a|
    ensures a == a[..i] + a[i..j] + a[j..]
  {}

  lemma {:induction false} BurstInside(p: seq<bool>, r: seq<bool>, pre: seq<bool>,
                                      u: seq<bool>, v: seq<bool>, post: seq<bool>)
    requires |r| == |p| && Generator(p) && |u| == |v| <= |p| && u != v
    ensures Residue(p, r, pre + u + post) != Residue(p, r, pre + v + post)
  {
    ResidueThree(p, r, pre, u, post);
    ResidueThree(p, r, pre, v, post);
    var x := Residue(p, r, pre);
    ResidueBijective(p, Residue(p, x, u), post);
    ResidueBijective(p, Residue(p, x, v), post);
    if Residue(p, x, u) == Residue(p, x, v) {
      ShortInjective(p, x, u, v);
    }
  }

  lemma {:induction false} ResidueThree(p: seq<bool>, r: seq<bool>, a: seq<bool>, b: seq<bool>, c: seq<bool>)
    requires |r| == |p| > 0
    ensures Residue(p, r, a + b + c) == Residue(p, Residue(p, Residue(p, r, a), b), c)
  {
    ResidueCat(p, r, a + b, c);
    ResidueCat(p, r, a, b);
  }

  lemma {:induction false} ShortInjective(p: seq<bool>, r: seq<bool>, u: seq<bool>, v: seq<bool>)
    requires |r| == |p| && Generator(p) && |u| == |v| <= |p|
    requires Residue(p, r, u) == Residue(p, r, v)
    ensures u == v
  {
    ResidueTop(p, r, u);
    ResidueTop(p, r, v);
    var z := Zeros(|p| - |u|);
    ShiftNInjective(p, Xor(r, u + z), Xor(r, v + z), |u|);
    forall k | 0 <= k < |u| ensures u[k] == v[k] {
      assert Xor(r, u + z)[k] == (r[k] != u[k]) && Xor(r, v + z)[k] == (r[k] != v[k]);
    }
  }

  lemma {:induction false} ShiftNInjective(p: seq<bool>, a: seq<bool>, b: seq<bool>, k: nat)
    requires |a| == |b| == |p| && Generator(p) && RegShiftN(p, a, k) == RegShiftN(p, b, k)
    ensures a == b
  {
    if k == 0 {
    } else {
      var x, y := RegShiftN(p, a, k - 1), RegShiftN(p, b, k - 1);
      assert RegShift(p, x) == RegShiftN(p, a, k) == RegShiftN(p, b, k) == RegShift(p, y);
      ShiftInjective(p, x, y);
      ShiftNInjective(p, a, b, k - 1);
    }
  }

  lemma {:induction false} ShiftInjective(p: seq<bool>, x: seq<bool>, y: seq<bool>)
    requires |x| == |y| == |p| && Generator(p) && RegShift(p, x) == RegShift(p, y)
    ensures x == y
  {
    StepIsShift(p, x, false);
    StepIsShift(p, y, false);
    StepUnstep(p, x, false);
    StepUnstep(p, y, false);
  }

  // ---------------------------------------------------------------- polynomial division

  /** The product of q with the generator x^n + p, most significant coefficient first. */
  function Times(p: seq<bool>, q: seq<bool>): (s: seq<bool>)
    ensures |s| == |q| + |p|
    decreases |q|
  {
    if q == [] then Zeros(|p|)
    else
      var k := |q| - 1;
      Xor(Times(p, q[..k]) + [false], Zeros(k) + Scale(q[k], [true] + p))
  }

  /** seed(x) * x^|bits| + bits(x) * x^n: what the register divides. */
  function Dividend(seed: seq<bool>, bits: seq<bool>): (s: seq<bool>)
    ensures |s| == |bits| + |seed|
  {
    Xor(seed + Zeros(|bits|), bits + Zeros(|seed|))
  }

  /** dividend = q * generator + rem for some quotient q. */
  ghost predicate IsRemainder(p: seq<bool>, seed: seq<bool>, bits: seq<bool>, rem: seq<bool>)
    requires |seed| == |rem| == |p|
  {
    exists q :: |q| == |bits| && Dividend(seed, bits) == Xor(Times(p, q), Zeros(|bits|) + rem)
  }

  function Quotient(p: seq<bool>, seed: seq<bool>, bits: seq<bool>): (q: seq<bool>)
    requires |seed| == |p| > 0
    ensures |q| == |bits|
    decreases |bits|
  {
    if bits == [] then []
    else
      var k := |bits| - 1;
      Quotient(p, seed, bits[..k]) + [Residue(p, seed, bits[..k])[0] != bits[k]]
  }

  lemma {:induction false} Division(p: seq<bool>, seed: seq<bool>, bits: seq<bool>)
    requires |seed| == |p| > 0
    ensures Dividend(seed, bits)
         == Xor(Times(p, Quotient(p, seed, bits)), Zeros(|bits|) + Residue(p, seed, bits))
    decreases |bits|
  {
    if bits == [] {
    } else {
      var k, n := |bits| - 1, |p|;
      Division(p, seed, bits[..k]);
      DividendSnoc(seed, bits[..k], bits[k]);
      assert bits == bits[..k] + [bits[k]];
      var q0 := Quotient(p, seed, bits[..k]);
      assert Quotient(p, seed, bits)[..k] == q0;
      DivisionStep(p, Times(p, q0), Residue(p, seed, bits[..k]), bits[k], k);
    }
  }

  lemma DividendSnoc(seed: seq<bool>, bits: seq<bool>, b: bool)
    ensures Dividend(seed, bits + [b])
         == Xor(Dividend(seed, bits) + [false], Zeros(|bits|) + [b] + Zeros(|seed|))
  {}

  lemma DivisionStep(p: seq<bool>, m: seq<bool>, r: seq<bool>, b: bool, k: nat)
    requires |r| == |p| > 0 && |m| == k + |p|
    ensures Xor(Xor(m, Zeros(k) + r) + [false], Zeros(k) + [b] + Zeros(|p|))
         == Xor(Xor(m + [false], Zeros(k) + Scale(r[0] != b, [true] + p)), Zeros(k + 1) + Step(p, r, b))
  {}

  lemma {:induction false} TimesInjective(p: seq<bool>, q: seq<bool>, q': seq<bool>)
    requires |q| == |q'| && Times(p, q)[..|q|] == Times(p, q')[..|q|]
    ensures q == q'
    decreases |q|
  {
    if q == [] {
    } else {
      var k := |q| - 1;
      var m, m' := Times(p, q), Times(p, q');
      var h, h' := Times(p, q[..k]), Times(p, q'[..k]);
      forall j | 0 <= j < k ensures h[j] == h'[j] {
        assert m[..|q|][j] == m'[..|q|][j];
      }
      assert h[..k] == h'[..k];
      TimesInjective(p, q[..k], q'[..k]);
      assert m[..|q|][k] == m'[..|q|][k];
      assert q[k] == q'[k];
    }
  }

  /** The register holds the remainder of polynomial division, and nothing else is one. */
  lemma {:induction false} ResidueIsRemainder(p: seq<bool>, seed: seq<bool>, bits: seq<bool>, rem: seq<bool>)
    requires |seed| == |rem| == |p| > 0
    ensures IsRemainder(p, seed, bits, rem) <==> rem == Residue(p, seed, bits)
  {
    Division(p, seed, bits);
    if IsRemainder(p, seed, bits, rem) {
      var q :| |q| == |bits| && Dividend(seed, bits) == Xor(Times(p, q), Zeros(|bits|) + rem);
      RemainderUnique(Times(p, q), Times(p, Quotient(p, seed, bits)), rem, Residue(p, seed, bits), |bits|);
      TimesInjective(p, q, Quotient(p, seed, bits));
      RemainderUnique(Times(p, q), Times(p, q), rem, Residue(p, seed, bits), |bits|);
    }
  }

  lemma {:induction false} RemainderUnique(m: seq<bool>, m': seq<bool>, r: seq<bool>, r': seq<bool>, n: nat)
    requires |m| == |m'| == n + |r| && |r| == |r'|
    requires Xor(m, Zeros(n) + r) == Xor(m', Zeros(n) + r')
    ensures m[..n] == m'[..n] && (m == m' ==> r == r')
  {
    var x, y := Xor(m, Zeros(n) + r), Xor(m', Zeros(n) + r');
    forall j | 0 <= j < n ensures m[j] == m'[j] {
      assert x[j] == y[j];
    }
    forall j | 0 <= j < |r| && m == m' ensures r[j] == r'[j] {
      assert x[n + j] == y[n + j];
    }
  }
}
