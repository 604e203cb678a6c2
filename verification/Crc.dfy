/** The two CRCs of the firmware: CRC-16/CCITT-FALSE (src/frame.c) and the CRC-8 of the SEN5x
    bus (src/sen5x.c). Both are one bitwise loop, differing in width and generator; what makes
    them checks is proved for every width of at least a byte. */
module Crc {
  import opened Bytes
  import opened Gf2

  /** A register of n bits and a generator x^n + poly with constant term 1. */
  datatype Kind = Kind(n: nat, poly: nat) {
    ghost predicate Valid() { n >= 8 && poly < Pow2(n) && poly % 2 == 1 }

    function P(): (p: seq<bool>)
      ensures |p| == n
    {
      BitsOf(poly, n)
    }
  }

  const CCITT := Kind(16, 0x1021)
  const SENSIRION := Kind(8, 0x31)

  lemma {:induction false} Widths()
    ensures Pow2(7) == 0x80 && Pow2(8) == 0x100 && Pow2(15) == 0x8000 && Pow2(16) == 0x1_0000
    ensures CCITT.Valid() && SENSIRION.Valid()
  {
    assert Pow2(4) == 16;
    assert Pow2(8) == 256;
    assert Pow2(12) == 4096;
  }

  // ---------------------------------------------------------------- the loops, on words

  /** One round of the inner loop: (crc & top) ? (crc << 1) ^ poly : crc << 1, truncated. */
  function Shift(k: Kind, c: nat): (s: nat)
    requires k.Valid() && c < Pow2(k.n)
    ensures s < Pow2(k.n)
  {
    var d := 2 * c % Pow2(k.n);
    BitsOfXor(d, k.poly, k.n);
    if c >= Pow2(k.n - 1) then XorWord(d, k.poly) else d
  }

  function ShiftN(k: Kind, c: nat, i: nat): (s: nat)
    requires k.Valid() && c < Pow2(k.n)
    ensures s < Pow2(k.n)
  {
    if i == 0 then c else Shift(k, ShiftN(k, c, i - 1))
  }

  /** crc ^= byte at the top of the register. */
  function Mix(k: Kind, c: nat, b: byte): (s: nat)
    requires k.Valid() && c < Pow2(k.n)
    ensures s < Pow2(k.n)
  {
    ByteAtTop(k, b);
    BitsOfXor(c, b * Pow2(k.n - 8), k.n);
    XorWord(c, b * Pow2(k.n - 8))
  }

  function Feed(k: Kind, c: nat, b: byte): (s: nat)
    requires k.Valid() && c < Pow2(k.n)
    ensures s < Pow2(k.n)
  {
    ShiftN(k, Mix(k, c, b), 8)
  }

  function Checksum(k: Kind, seed: nat, data: seq<byte>): (c: nat)
    requires k.Valid() && seed < Pow2(k.n)
    ensures c < Pow2(k.n)
    decreases |data|
  {
    if data == [] then seed else Feed(k, Checksum(k, seed, data[..|data| - 1]), data[|data| - 1])
  }

  function Crc16(seed: u16, data: seq<byte>): u16 {
    Widths();
    Checksum(CCITT, seed, data)
  }

  /** sntl_crc16 on the len bytes at off. */
  method Compute(seed: u16, data: array<byte>, off: nat, len: nat) returns (crc: u16)
    requires off + len <= data.Length
    ensures crc == Crc16(seed, data[off..off + len])
    // width 16, x^16 + x^12 + x^5 + 1, no reflection, no final xor
    ensures Kind(16, 0x1021).Valid() && Pow2(16) == 0x1_0000
    ensures crc == Checksum(Kind(16, 0x1021), seed, data[off..off + len])
  {
    Widths();
    crc := seed;
    var i := 0;
    while i < len
      invariant i <= len
      invariant crc == Crc16(seed, data[off..off + i])
    {
      ghost var mixed := Mix(CCITT, crc, data[off + i]);
      Mix16(crc, data[off + i]);
      crc := XorWord(crc, data[off + i] as int * 0x100);
      var j := 0;
      while j < 8
        invariant j <= 8
        invariant crc == ShiftN(CCITT, mixed, j)
      {
        Shift16(crc);
        crc := if crc >= 0x8000 then XorWord(2 * (crc as int) % 0x1_0000, 0x1021) else 2 * (crc as int) % 0x1_0000;
        j := j + 1;
      }
      assert data[off..off + i + 1][..i] == data[off..off + i];
      i := i + 1;
    }
  }

  lemma {:induction false} Mix16(c: u16, b: byte)
    ensures Pow2(16) == 0x1_0000 && CCITT.Valid()
    ensures XorWord(c, b as int * 0x100) == Mix(CCITT, c, b)
  {
    Widths();
  }

  lemma {:induction false} Shift16(c: u16)
    ensures Pow2(16) == 0x1_0000 && CCITT.Valid()
    ensures var d := 2 * (c as int) % 0x1_0000;
            Shift(CCITT, c) == if c >= 0x8000 then XorWord(d, 0x1021) else d
  {
    Widths();
    ShiftIs(CCITT, c, 0x8000, 0x1_0000);
  }

  lemma ShiftIs(k: Kind, c: nat, top: nat, full: nat)
    requires k.Valid() && c < Pow2(k.n) == full && Pow2(k.n - 1) == top
    ensures Shift(k, c) == if c >= top then XorWord(2 * c % full, k.poly) else 2 * c % full
  {}

  // ---------------------------------------------------------------- words as registers

  /** The bits of a message in the order the register consumes them. */
  function Bits(data: seq<byte>): (s: seq<bool>)
    ensures |s| == 8 * |data|
  {
    if data == [] then [] else Bits(data[..|data| - 1]) + BitsOf(data[|data| - 1], 8)
  }

  lemma {:induction false} BitsDistinct(a: seq<byte>, b: seq<byte>)
    requires |a| == |b| && Bits(a) == Bits(b)
    ensures a == b
    decreases |a|
  {
    if a == [] {
      assert b == [];
    } else {
      var n := |a| - 1;
      assert Bits(a)[..8 * n] == Bits(a[..n]) && Bits(b)[..8 * n] == Bits(b[..n]);
      assert Bits(a)[8 * n..] == BitsOf(a[n], 8) && Bits(b)[8 * n..] == BitsOf(b[n], 8);
      BitsDistinct(a[..n], b[..n]);
      Widths();
      BitsInjective(a[n], b[n], 8);
      assert a == a[..n] + [a[n]] && b == b[..n] + [b[n]];
    }
  }

  lemma {:induction false} Pow2Sum(a: nat, b: nat)
    ensures Pow2(a + b) == Pow2(a) * Pow2(b)
  {
    if a == 0 {
    } else {
      Pow2Sum(a - 1, b);
    }
  }

  lemma {:induction false} ByteAtTop(k: Kind, b: byte)
    requires k.Valid()
    ensures b * Pow2(k.n - 8) < Pow2(k.n)
    ensures BitsOf(b * Pow2(k.n - 8), k.n) == BitsOf(b, 8) + Zeros(k.n - 8)
  {
    ByteFits(b, k.n);
    BitsOfSplit(b, 0, 8, k.n - 8);
    ZeroBits(k.n - 8);
  }

  lemma ByteFits(b: byte, n: nat)
    requires n >= 8
    ensures b * Pow2(n - 8) < Pow2(n)
  {
    Widths();
    Pow2Sum(8, n - 8);
    MulBelow(b, 0x100, Pow2(n - 8));
  }

  lemma {:induction false} MulBelow(a: nat, b: nat, m: nat)
    requires a < b && m > 0
    ensures a * m < b * m
  {
    assert b * m - a * m == (b - a) * m;
    MulAtLeast(m, b - a);
  }

  lemma {:induction false} ZeroBits(n: nat)
    ensures BitsOf(0, n) == Zeros(n)
  {
    if n == 0 {
    } else {
      ZeroBits(n - 1);
    }
  }

  lemma {:induction false} ShiftIsRegShift(k: Kind, c: nat)
    requires k.Valid() && c < Pow2(k.n)
    ensures BitsOf(Shift(k, c), k.n) == RegShift(k.P(), BitsOf(c, k.n))
  {
    BitsOfDouble(c, k.n);
    BitsOfTail(c, k.n);
    BitsOfXor(2 * c % Pow2(k.n), k.poly, k.n);
  }

  lemma {:induction false} ShiftNIsRegShiftN(k: Kind, c: nat, i: nat)
    requires k.Valid() && c < Pow2(k.n)
    ensures BitsOf(ShiftN(k, c, i), k.n) == RegShiftN(k.P(), BitsOf(c, k.n), i)
  {
    if i == 0 {
    } else {
      ShiftNIsRegShiftN(k, c, i - 1);
      ShiftIsRegShift(k, ShiftN(k, c, i - 1));
    }
  }

  lemma {:induction false} FeedIsResidue(k: Kind, c: nat, b: byte)
    requires k.Valid() && c < Pow2(k.n)
    ensures BitsOf(Feed(k, c, b), k.n) == Residue(k.P(), BitsOf(c, k.n), BitsOf(b, 8))
  {
    ByteAtTop(k, b);
    BitsOfXor(c, b * Pow2(k.n - 8), k.n);
    ShiftNIsRegShiftN(k, Mix(k, c, b), 8);
    ResidueTop(k.P(), BitsOf(c, k.n), BitsOf(b, 8));
  }

  /** The byte loop computes the residue of the message's bits. */
  lemma {:induction false} CrcIsResidue(k: Kind, seed: nat, data: seq<byte>)
    requires k.Valid() && seed < Pow2(k.n)
    ensures BitsOf(Checksum(k, seed, data), k.n) == Residue(k.P(), BitsOf(seed, k.n), Bits(data))
    decreases |data|
  {
    if data == [] {
    } else {
      var i := |data| - 1;
      CrcIsResidue(k, seed, data[..i]);
      FeedIsResidue(k, Checksum(k, seed, data[..i]), data[i]);
      ResidueCat(k.P(), BitsOf(seed, k.n), Bits(data[..i]), BitsOf(data[i], 8));
    }
  }

  lemma PolyIsGenerator(k: Kind)
    requires k.Valid()
    ensures Generator(k.P())
  {}

  // ---------------------------------------------------------------- what a CRC promises

  /** Feeding a message in two pieces is feeding it whole. */
  lemma {:induction false} Chain(k: Kind, seed: nat, a: seq<byte>, b: seq<byte>)
    requires k.Valid() && seed < Pow2(k.n)
    ensures Checksum(k, seed, a + b) == Checksum(k, Checksum(k, seed, a), b)
    decreases |b|
  {
    if b == [] {
      assert a + b == a;
    } else {
      assert (a + b)[..|a + b| - 1] == a + b[..|b| - 1];
      Chain(k, seed, a, b[..|b| - 1]);
    }
  }

  function XorBytes(a: seq<byte>, b: seq<byte>): (c: seq<byte>)
    requires |a| == |b|
    ensures |c| == |a|
  {
    if a == [] then [] else
      var i := |a| - 1;
      Widths();
      BitsOfXor(a[i], b[i], 8);
      XorBytes(a[..i], b[..i]) + [XorWord(a[i], b[i])]
  }

  lemma {:induction false} BitsOfXorBytes(a: seq<byte>, b: seq<byte>)
    requires |a| == |b|
    ensures Bits(XorBytes(a, b)) == Xor(Bits(a), Bits(b))
    decreases |a|
  {
    if a == [] {
    } else {
      var i := |a| - 1;
      BitsOfXorBytes(a[..i], b[..i]);
      BitsOfXor(a[i], b[i], 8);
    }
  }

  /** Linearity, in the seed and in the message at once. */
  lemma {:induction false} Linear(k: Kind, s: nat, t: nat, a: seq<byte>, b: seq<byte>)
    requires k.Valid() && s < Pow2(k.n) && t < Pow2(k.n) && |a| == |b|
    ensures XorWord(s, t) < Pow2(k.n)
    ensures Checksum(k, XorWord(s, t), XorBytes(a, b)) == XorWord(Checksum(k, s, a), Checksum(k, t, b))
  {
    BitsOfXor(s, t, k.n);
    BitsOfXor(Checksum(k, s, a), Checksum(k, t, b), k.n);
    BitsOfXorBytes(a, b);
    CrcIsResidue(k, XorWord(s, t), XorBytes(a, b));
    CrcIsResidue(k, s, a);
    CrcIsResidue(k, t, b);
    ResidueLinear(k.P(), BitsOf(s, k.n), BitsOf(t, k.n), Bits(a), Bits(b));
    BitsInjective(Checksum(k, XorWord(s, t), XorBytes(a, b)), XorWord(Checksum(k, s, a), Checksum(k, t, b)), k.n);
  }

  /** The one seed from which data leads to crc. */
  function SeedFor(k: Kind, crc: nat, data: seq<byte>): (seed: nat)
    requires k.Valid() && crc < Pow2(k.n)
    ensures seed < Pow2(k.n)
  {
    WordOf(Unresidue(k.P(), BitsOf(crc, k.n), Bits(data)))
  }

  /** For every message the CRC is a bijection of the seed. */
  lemma {:induction false} SeedBijective(k: Kind, seed: nat, crc: nat, data: seq<byte>)
    requires k.Valid() && seed < Pow2(k.n) && crc < Pow2(k.n)
    ensures Checksum(k, seed, data) == crc <==> seed == SeedFor(k, crc, data)
  {
    var s := SeedFor(k, crc, data);
    BitsOfWordOf(Unresidue(k.P(), BitsOf(crc, k.n), Bits(data)));
    PolyIsGenerator(k);
    CrcIsResidue(k, s, data);
    CrcIsResidue(k, seed, data);
    ResidueBijective(k.P(), BitsOf(crc, k.n), Bits(data));
    ResidueBijective(k.P(), BitsOf(seed, k.n), Bits(data));
    BitsInjective(Checksum(k, s, data), crc, k.n);
    if Checksum(k, seed, data) == crc { BitsInjective(seed, s, k.n); }
  }

  /** The CRC is the remainder of dividing seed * x^|M| + M * x^n by the generator: it is one,
      and no other word is. */
  lemma {:induction false} CrcIsRemainder(k: Kind, seed: nat, data: seq<byte>, rem: nat)
    requires k.Valid() && seed < Pow2(k.n) && rem < Pow2(k.n)
    ensures rem == Checksum(k, seed, data)
       <==> IsRemainder(k.P(), BitsOf(seed, k.n), Bits(data), BitsOf(rem, k.n))
  {
    CrcIsResidue(k, seed, data);
    ResidueIsRemainder(k.P(), BitsOf(seed, k.n), Bits(data), BitsOf(rem, k.n));
    if BitsOf(rem, k.n) == BitsOf(Checksum(k, seed, data), k.n) {
      BitsInjective(rem, Checksum(k, seed, data), k.n);
    }
  }

  /** Two different messages of one length whose bits differ only within n consecutive
      positions never share a CRC. */
  lemma {:induction false} BurstChangesCrc(k: Kind, seed: nat, a: seq<byte>, b: seq<byte>, i: nat)
    requires k.Valid() && seed < Pow2(k.n) && |a| == |b| && a != b
    requires forall j :: 0 <= j < 8 * |a| && !(i <= j < i + k.n) ==> Bits(a)[j] == Bits(b)[j]
    ensures Checksum(k, seed, a) != Checksum(k, seed, b)
  {
    if Bits(a) == Bits(b) { BitsDistinct(a, b); }
    PolyIsGenerator(k);
    CrcIsResidue(k, seed, a);
    CrcIsResidue(k, seed, b);
    BurstDetected(k.P(), BitsOf(seed, k.n), Bits(a), Bits(b), i);
  }
}
