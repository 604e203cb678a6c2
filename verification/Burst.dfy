/** What the trailing CRC of a frame detects (src/frame.h, src/ble.c): the register is computed
    most significant bit first but sent low byte first, so bursts that run into the trailer are
    guarded less well than those inside the body. */
module Burst {
  import opened Bytes
  import opened Gf2
  import opened Crc
  import opened Frame

  /** a and b agree outside n consecutive bits from the i-th on. */
  ghost predicate Near(a: seq<byte>, b: seq<byte>, i: nat, n: nat) {
    |a| == |b| && forall j :: 0 <= j < 8 * |a| && !(i <= j < i + n) ==> Bits(a)[j] == Bits(b)[j]
  }

  // ---------------------------------------------------------------- inside the body

  /** A frame whose header or records are hit by a burst of at most 16 bits, CRC intact, is
      never accepted. */
  lemma {:induction false} BodyBurstRejected(id: seq<byte>, rs: seq<Record>, bad: seq<byte>, i: nat)
    requires |rs| < 0x1_0000 && bad != Body(id, rs) && Near(bad, Body(id, rs), i, 16)
    ensures ParseFrame(bad + Le16(Crc16(0xFFFF, Body(id, rs)))) == None
  {
    var s, crc := bad + Le16(Crc16(0xFFFF, Body(id, rs))), Crc16(0xFFFF, Body(id, rs));
    Widths();
    BurstChangesCrc(CCITT, 0xFFFF, bad, Body(id, rs), i);
    assert s[..|s| - 2] == bad && s[|s| - 2..|s| - 2 + 2] == Le16(crc);
    Rd16Le16(s, |s| - 2, crc);
  }

  // ---------------------------------------------------------------- the trailer on the wire

  lemma {:induction false} BitsCat(a: seq<byte>, b: seq<byte>)
    ensures Bits(a + b) == Bits(a) + Bits(b)
    decreases |b|
  {
    if b == [] {
      assert a + b == a;
    } else {
      var k := |b| - 1;
      assert (a + b)[..|a + b| - 1] == a + b[..k] && (a + b)[|a + b| - 1] == b[k];
      BitsCat(a, b[..k]);
      assert Bits(a) + (Bits(b[..k]) + BitsOf(b[k], 8)) == Bits(a) + Bits(b[..k]) + BitsOf(b[k], 8);
    }
  }

  lemma {:induction false} WireBits(x: u16)
    ensures Bits(Le16(x)) == BitsOf(x, 16)[8..] + BitsOf(x, 16)[..8]
  {
    var lo: byte, hi: byte := x % 0x100, x / 0x100;
    assert x == hi * 0x100 + lo;
    SplitWord(hi, lo);
    TwoBytes(lo, hi);
  }

  lemma {:induction false} SplitWord(hi: byte, lo: byte)
    ensures BitsOf(hi * 0x100 + lo, 16) == BitsOf(hi, 8) + BitsOf(lo, 8)
  {
    Widths();
    BitsOfSplit(hi, lo, 8, 8);
  }

  lemma {:induction false} TwoBytes(a: byte, b: byte)
    ensures Bits([a, b]) == BitsOf(a, 8) + BitsOf(b, 8)
  {
    OneByte(a);
    OneByte(b);
    BitsCat([a], [b]);
    assert [a, b] == [a] + [b];
  }

  lemma {:induction false} OneByte(b: byte)
    ensures Bits([b]) == BitsOf(b, 8)
  {
    assert [b][..0] == [];
  }

  /** The position on the wire of the CRC's coefficient of x^c. */
  function Wire(c: nat): int { if c < 8 then 7 - c else 23 - c }

  /** The coefficients of x^12, x^5 and 1, below x^16. */
  ghost predicate Sparse(p: seq<bool>) {
    |p| == 16 && forall i :: 0 <= i < 16 ==> p[i] == (i == 3 || i == 10 || i == 15)
  }

  lemma {:induction false} PolyIsSparse()
    ensures Sparse(CCITT.P())
  {
    Widths();
    BitsOfSplit(0x10, 0x21, 8, 8);
    TwoNibbles(1, 0);
    TwoNibbles(2, 1);
    Nibble(0);
    Nibble(1);
    Nibble(2);
  }

  // ---------------------------------------------------------------- multiples of the generator

  /** The coefficient of x^r, in a polynomial given most significant coefficient first. */
  function Coef(q: seq<bool>, r: int): bool { 0 <= r < |q| && q[|q| - 1 - r] }

  /** The coefficient of x^d in q * (x^16 + x^12 + x^5 + 1). */
  function Taps(q: seq<bool>, d: int): bool {
    (Coef(q, d - 16) != Coef(q, d - 12)) != (Coef(q, d - 5) != Coef(q, d))
  }

  lemma {:induction false} TimesTaps(p: seq<bool>, q: seq<bool>, d: int)
    requires Sparse(p)
    ensures Coef(Times(p, q), d) == Taps(q, d)
    decreases |q|
  {
    if |q| == 0 {
    } else {
      var k := |q| - 1;
      TimesTaps(p, q[..k], d - 1);
      AddTap(p, Times(p, q[..k]), q[..k], q[k], d);
      TimesSnoc(p, q);
      assert q == q[..k] + [q[k]];
    }
  }

  lemma TimesSnoc(p: seq<bool>, q: seq<bool>)
    requires q != []
    ensures var k := |q| - 1;
            Times(p, q) == Xor(Times(p, q[..k]) + [false], Zeros(k) + Scale(q[k], [true] + p))
  {}

  /** One more quotient bit adds the generator, or nothing, to the shifted product. */
  lemma {:induction false} AddTap(p: seq<bool>, m: seq<bool>, q: seq<bool>, b: bool, d: int)
    requires Sparse(p) && |m| == |q| + 16 && Coef(m, d - 1) == Taps(q, d - 1)
    ensures Coef(Xor(m + [false], Zeros(|q|) + Scale(b, [true] + p)), d) == Taps(q + [b], d)
  {
    CoefSnoc(m, false, d);
    CoefSnoc(q, b, d);
    GeneratorAt(p, |q|, b, d);
    CoefXor(m + [false], Zeros(|q|) + Scale(b, [true] + p), d);
    TapsSnoc(q, b, d);
  }

  lemma CoefSnoc(q: seq<bool>, b: bool, d: int)
    ensures Coef(q + [b], d) == if d == 0 then b else Coef(q, d - 1)
  {}

  lemma CoefXor(a: seq<bool>, b: seq<bool>, d: int)
    requires |a| == |b|
    ensures Coef(Xor(a, b), d) == (Coef(a, d) != Coef(b, d))
  {}

  lemma {:induction false} GeneratorAt(p: seq<bool>, k: nat, b: bool, d: int)
    requires Sparse(p)
    ensures Coef(Zeros(k) + Scale(b, [true] + p), d) == (b && (d == 0 || d == 5 || d == 12 || d == 16))
  {
    var g := [true] + p;
    assert Coef(Zeros(k) + Scale(b, g), d) == (b && Coef(g, d));
  }

  lemma {:induction false} TapsSnoc(q: seq<bool>, b: bool, d: int)
    ensures Taps(q + [b], d) == (Taps(q, d - 1) != (b && (d == 0 || d == 5 || d == 12 || d == 16)))
  {
    CoefSnoc(q, b, d - 16);
    CoefSnoc(q, b, d - 12);
    CoefSnoc(q, b, d - 5);
    CoefSnoc(q, b, d);
  }

  /** The register after the bits e from zero, as the low coefficients of a multiple of the
      generator by some quotient as long as e. */
  lemma {:induction false} ResidueTaps(p: seq<bool>, e: seq<bool>) returns (q: seq<bool>)
    requires Sparse(p)
    ensures |q| == |e|
    ensures forall c :: 0 <= c < 16 ==> Coef(Residue(p, Zeros(16), e), c) == Taps(q, c)
  {
    var z := Zeros(16);
    var r := Residue(p, z, e);
    q := Quotient(p, z, e);
    Division(p, z, e);
    var m := Times(p, q);
    forall c | 0 <= c < 16 ensures Coef(r, c) == Taps(q, c) {
      TimesTaps(p, q, c);
      LowPart(z, e, m, r, c);
    }
  }

  lemma {:induction false} LowPart(z: seq<bool>, e: seq<bool>, m: seq<bool>, r: seq<bool>, c: nat)
    requires z == Zeros(16) && |m| == |e| + 16 && |r| == 16 && c < 16
    requires Dividend(z, e) == Xor(m, Zeros(|e|) + r)
    ensures Coef(r, c) == Coef(m, c)
  {
    var j := |e| + 15 - c;
    assert Dividend(z, e)[j] == false;
    assert Xor(m, Zeros(|e|) + r)[j] == (m[j] != r[15 - c]);
  }

  /** With at most eleven quotient bits, and nothing left of the product outside the b bits that
      lead the trailer, there is no product. */
  lemma {:induction false} NoShortSplit(q: seq<bool>, b: nat)
    requires 0 < |q| && |q| + b == 12
    requires forall c :: 0 <= c < 16 && Wire(c) >= b ==> !Taps(q, c)
    ensures forall r :: !Coef(q, r)
  {
    assert forall r :: 12 <= r ==> !Coef(q, r);
    assert Wire(0) >= b ==> !Taps(q, 0);
    assert Wire(1) >= b ==> !Taps(q, 1);
    assert Wire(2) >= b ==> !Taps(q, 2);
    assert Wire(3) >= b ==> !Taps(q, 3);
    assert Wire(4) >= b ==> !Taps(q, 4);
    assert Wire(5) >= b ==> !Taps(q, 5);
    assert Wire(6) >= b ==> !Taps(q, 6);
    assert Wire(7) >= b ==> !Taps(q, 7);
    assert Wire(8) >= b ==> !Taps(q, 8);
    assert Wire(9) >= b ==> !Taps(q, 9);
    assert Wire(10) >= b ==> !Taps(q, 10);
    assert Wire(11) >= b ==> !Taps(q, 11);
    assert Wire(12) >= b ==> !Taps(q, 12);
    assert Wire(13) >= b ==> !Taps(q, 13);
    assert Wire(14) >= b ==> !Taps(q, 14);
    assert Wire(15) >= b ==> !Taps(q, 15);
    assert !Coef(q, 0) && !Coef(q, 1) && !Coef(q, 2) && !Coef(q, 3) && !Coef(q, 4) && !Coef(q, 5);
    assert !Coef(q, 6) && !Coef(q, 7) && !Coef(q, 8) && !Coef(q, 9) && !Coef(q, 10) && !Coef(q, 11);
  }

  // ---------------------------------------------------------------- across the trailer

  /** At most eleven message bits can not change the register in only as many bits, from the
      first one sent on, as make up twelve. */
  lemma {:induction false} ShortSplit(p: seq<bool>, e: seq<bool>, b: nat)
    requires Sparse(p) && 0 < |e| && |e| + b == 12
    requires forall c :: 0 <= c < 16 && Wire(c) >= b ==> !Coef(Residue(p, Zeros(16), e), c)
    ensures Residue(p, Zeros(16), e) == Zeros(16)
  {
    var r := Residue(p, Zeros(16), e);
    var q := ResidueTaps(p, e);
    assert forall c :: 0 <= c < 16 ==> Coef(r, c) == Taps(q, c);
    NoShortSplit(q, b);
    forall j | 0 <= j < 16 ensures !r[j] {
      assert Coef(r, 15 - j) == Taps(q, 15 - j);
    }
  }

  /** Messages from one register on differ in the register by what their difference leaves. */
  lemma {:induction false} ResidueDiff(p: seq<bool>, r: seq<bool>, u: seq<bool>, v: seq<bool>)
    requires |r| == |p| > 0 && |u| == |v|
    ensures Xor(Residue(p, r, u), Residue(p, r, v)) == Residue(p, Zeros(|p|), Xor(u, v))
  {
    ResidueLinear(p, r, r, u, v);
    assert Xor(r, r) == Zeros(|p|);
  }

  /** Two messages that differ only in their last |e| < 12 bits, and whose trailers differ only
      in the first bits sent up to twelve in all, have the same CRC. */
  lemma {:induction false} SplitBurst(x: seq<byte>, y: seq<byte>, i: nat)
    requires |x| == |y| && i < 8 * |x| < i + 12
    requires Bits(x)[..i] == Bits(y)[..i]
    requires forall j :: i + 12 - 8 * |x| <= j < 16
               ==> Bits(Le16(Crc16(0xFFFF, x)))[j] == Bits(Le16(Crc16(0xFFFF, y)))[j]
    ensures Crc16(0xFFFF, x) == Crc16(0xFFFF, y)
  {
    Widths();
    var (p, c, d) := (CCITT.P(), Crc16(0xFFFF, x), Crc16(0xFFFF, y));
    var (u, v) := (Bits(x)[i..], Bits(y)[i..]);
    var r := Residue(p, BitsOf(0xFFFF, 16), Bits(x)[..i]);
    RegisterFrom(x, i);
    RegisterFrom(y, i);
    ResidueDiff(p, r, u, v);
    var e := Xor(u, v);
    forall k | 0 <= k < 16 && Wire(k) >= 12 - |e| ensures !Coef(Residue(p, Zeros(16), e), k) {
      OnWire(c, k);
      OnWire(d, k);
      CoefXor(BitsOf(c, 16), BitsOf(d, 16), k);
    }
    PolyIsSparse();
    ShortSplit(p, e, 12 - |e|);
    SameIfZero(BitsOf(c, 16), BitsOf(d, 16));
    BitsInjective(c, d, 16);
  }

  lemma {:induction false} RegisterFrom(x: seq<byte>, i: nat)
    requires i <= 8 * |x|
    ensures BitsOf(Crc16(0xFFFF, x), 16)
         == Residue(CCITT.P(), Residue(CCITT.P(), BitsOf(0xFFFF, 16), Bits(x)[..i]), Bits(x)[i..])
  {
    Widths();
    CrcIsResidue(CCITT, 0xFFFF, x);
    ResidueSplit(CCITT.P(), BitsOf(0xFFFF, 16), Bits(x), i);
  }

  lemma {:induction false} ResidueSplit(p: seq<bool>, r: seq<bool>, bits: seq<bool>, i: nat)
    requires |r| == |p| > 0 && i <= |bits|
    ensures Residue(p, r, bits) == Residue(p, Residue(p, r, bits[..i]), bits[i..])
  {
    ResidueCat(p, r, bits[..i], bits[i..]);
    assert bits[..i] + bits[i..] == bits;
  }

  lemma {:induction false} OnWire(c: u16, k: nat)
    requires k < 16
    ensures 0 <= Wire(k) < 16 && Bits(Le16(c))[Wire(k)] == Coef(BitsOf(c, 16), k)
  {
    WireBits(c);
    Swapped(BitsOf(c, 16), k);
  }

  lemma Swapped(b: seq<bool>, k: nat)
    requires k < 16 == |b|
    ensures (b[8..] + b[..8])[Wire(k)] == Coef(b, k)
  {}

  lemma {:induction false} SameIfZero(a: seq<bool>, b: seq<bool>)
    requires |a| == |b| && Xor(a, b) == Zeros(|a|)
    ensures a == b
  {
    assert forall j :: 0 <= j < |a| ==> (a[j] != b[j]) == Xor(a, b)[j];
  }

  // ---------------------------------------------------------------- whole frames

  function Trailed(x: seq<byte>): (s: seq<byte>)
    ensures |s| == |x| + 2
  {
    x + Le16(Crc16(0xFFFF, x))
  }

  /** Two messages trailed by their CRCs that agree outside twelve consecutive bits, wherever
      these lie, are the same. */
  lemma {:induction false} TrailedDistance(x: seq<byte>, y: seq<byte>, i: nat)
    requires Near(Trailed(x), Trailed(y), i, 12)
    ensures x == y
  {
    var (n, f, g) := (8 * |x|, Le16(Crc16(0xFFFF, x)), Le16(Crc16(0xFFFF, y)));
    NearParts(x, f, y, g, i);
    if i >= n {
      assert Bits(x) == Bits(y);
      BitsDistinct(x, y);
    } else {
      if i + 12 <= n {
        assert Bits(f) == Bits(g);
        BitsDistinct(f, g);
        Rd16Le16(f, 0, Crc16(0xFFFF, x));
        Rd16Le16(g, 0, Crc16(0xFFFF, y));
      } else {
        assert Bits(x)[..i] == Bits(y)[..i];
        SplitBurst(x, y, i);
      }
      SameCrc(x, y, i);
    }
  }

  lemma {:induction false} NearParts(x: seq<byte>, f: seq<byte>, y: seq<byte>, g: seq<byte>, i: nat)
    requires |x| == |y| && |f| == |g| == 2 && Near(x + f, y + g, i, 12)
    ensures Near(x, y, i, 12)
    ensures forall j :: 0 <= j < 16 && !(i <= 8 * |x| + j < i + 12) ==> Bits(f)[j] == Bits(g)[j]
  {
    BitsCat(x, f);
    BitsCat(y, g);
    AgreeParts(Bits(x), Bits(f), Bits(y), Bits(g), i);
  }

  lemma {:induction false} AgreeParts(a: seq<bool>, u: seq<bool>, b: seq<bool>, v: seq<bool>, i: nat)
    requires |a| == |b| && |u| == |v|
    requires forall j :: 0 <= j < |a + u| && !(i <= j < i + 12) ==> (a + u)[j] == (b + v)[j]
    ensures forall j :: 0 <= j < |a| && !(i <= j < i + 12) ==> a[j] == b[j]
    ensures forall j :: 0 <= j < |u| && !(i <= |a| + j < i + 12) ==> u[j] == v[j]
  {
    forall j | 0 <= j < |u| && !(i <= |a| + j < i + 12) ensures u[j] == v[j] {
      assert (a + u)[|a| + j] == (b + v)[|a| + j];
    }
    forall j | 0 <= j < |a| && !(i <= j < i + 12) ensures a[j] == b[j] {
      assert (a + u)[j] == (b + v)[j];
    }
  }

  lemma {:induction false} SameCrc(x: seq<byte>, y: seq<byte>, i: nat)
    requires Near(x, y, i, 16) && Crc16(0xFFFF, x) == Crc16(0xFFFF, y)
    ensures x == y
  {
    Widths();
    if x != y { BurstChangesCrc(CCITT, 0xFFFF, x, y, i); }
  }

  /** Whatever the reader accepts is trailed by its CRC. */
  lemma {:induction false} AcceptedTrailed(s: seq<byte>)
    requires ParseFrame(s).Some?
    ensures |s| >= 2 && s == Trailed(s[..|s| - 2])
  {
    SplitTrailer(s, Crc16(0xFFFF, s[..|s| - 2]));
  }

  lemma {:induction false} SplitTrailer(s: seq<byte>, crc: u16)
    requires |s| >= 2 && Rd16(s, |s| - 2) == crc
    ensures s == s[..|s| - 2] + Le16(crc)
  {
    Le16Rd16(s, |s| - 2);
    assert s == s[..|s| - 2] + s[|s| - 2..|s| - 2 + 2];
  }

  /** A frame hit by a burst of at most 12 bits, in header, records, trailer or across them, is
      never accepted. */
  lemma {:induction false} BurstRejected(id: seq<byte>, rs: seq<Record>, bad: seq<byte>, i: nat)
    requires |rs| < 0x1_0000 && bad != Whole(id, rs) && Near(bad, Whole(id, rs), i, 12)
    ensures ParseFrame(bad) == None
  {
    if ParseFrame(bad).Some? {
      AcceptedTrailed(bad);
      TrailedDistance(bad[..|bad| - 2], Body(id, rs), i);
    }
  }

  /** The trailer is the remainder of the message behind sixteen one-bits, on division by
      x^16 + x^12 + x^5 + 1, and no other word would be. */
  lemma {:induction false} TrailerIsRemainder(x: seq<byte>, p: seq<bool>, trailer: u16)
    requires Sparse(p)
    ensures Trailed(x) == x + Le16(trailer) <==> IsRemainder(p, Ones(16), Bits(x), BitsOf(trailer, 16))
  {
    Widths();
    PolyIsSparse();
    assert p == CCITT.P();
    OneBits(16);
    CrcIsRemainder(CCITT, 0xFFFF, x, trailer);
    TrailerOnly(x, Crc16(0xFFFF, x), trailer);
  }

  lemma {:induction false} TrailerOnly(x: seq<byte>, a: u16, b: u16)
    ensures x + Le16(a) == x + Le16(b) <==> a == b
  {
    if x + Le16(a) == x + Le16(b) {
      assert Le16(a) == (x + Le16(a))[|x|..] == (x + Le16(b))[|x|..] == Le16(b);
      Rd16Le16(Le16(a), 0, a);
      Rd16Le16(Le16(a), 0, b);
    }
  }

  // ---------------------------------------------------------------- and no more than that

  lemma {:induction false} XorZero(a: nat)
    ensures XorWord(a, 0) == a == XorWord(0, a)
  {
    if a == 0 {
    } else {
      XorZero(a / 2);
    }
  }

  /** The last bit of a message flips the generator's bits in the register. */
  lemma {:induction false} LastBit()
    ensures CCITT.Valid() && Pow2(16) == 0x1_0000 && Checksum(CCITT, 0, [1]) == 0x1021
  {
    Widths();
    XorZero(0x100);
    Mix16(0, 1);
    Doubles(0x100, 0);
    assert ShiftN(CCITT, 0x100, 7) == 0x8000 by {
      Doubles(0x100, 1);
      Doubles(0x100, 2);
      Doubles(0x100, 3);
      Doubles(0x100, 4);
      Doubles(0x100, 5);
      Doubles(0x100, 6);
    }
    Shift16(0x8000);
    XorZero(0x1021);
    assert [1][..0] == [] && [1][0] == 1;
  }

  lemma {:induction false} Doubles(c: u16, i: nat)
    requires CCITT.Valid() && Pow2(16) == 0x1_0000
    ensures var s := ShiftN(CCITT, c, i); s < 0x8000 ==> ShiftN(CCITT, c, i + 1) == 2 * s
  {
    Shift16(ShiftN(CCITT, c, i));
  }

  function FlipLast(x: seq<byte>): (y: seq<byte>)
    requires x != []
    ensures |y| == |x|
  {
    Widths();
    BitsOfXor(x[|x| - 1], 1, 8);
    x[..|x| - 1] + [XorWord(x[|x| - 1], 1)]
  }

  lemma {:induction false} FlipLastCrc(x: seq<byte>)
    requires x != []
    ensures Crc16(0xFFFF, FlipLast(x)) == XorWord(Crc16(0xFFFF, x), 0x1021)
  {
    Widths();
    var (a, b) := (x[..|x| - 1], x[|x| - 1]);
    var c := Checksum(CCITT, 0xFFFF, a);
    assert x == a + [b];
    Chain(CCITT, 0xFFFF, a, [b]);
    FlipByteCrc(c, b);
    Chain(CCITT, 0xFFFF, a, [XorWord(b, 1)]);
  }

  lemma {:induction false} FlipByteCrc(c: u16, b: byte)
    ensures XorWord(b, 1) < 0x100 && CCITT.Valid() && Pow2(16) == 0x1_0000
    ensures Checksum(CCITT, c, [XorWord(b, 1)]) == XorWord(Checksum(CCITT, c, [b]), 0x1021)
  {
    LastBit();
    Widths();
    BitsOfXor(b, 1, 8);
    XorOne(b, 1);
    Linear(CCITT, c, 0, [b], [1]);
    XorZero(c);
  }

  lemma {:induction false} XorOne(a: byte, b: byte)
    ensures XorWord(a, b) < 0x100 && XorBytes([a], [b]) == [XorWord(a, b)]
  {
    Widths();
    BitsOfXor(a, b, 8);
    assert [a][..0] == [] && [b][..0] == [];
  }

  /** The frame with the last bit in front of its trailer flipped, and the trailer to match. */
  function Spoiled(id: seq<byte>, rs: seq<Record>): (s: seq<byte>)
    requires |rs| < 0x1_0000
    ensures |s| == FrameSize(|rs|)
  {
    Trailed(FlipLast(Body(id, rs)))
  }

  /** Twelve is exact: in every frame some burst of thirteen bits goes unnoticed. */
  lemma {:induction false} BurstAccepted(id: seq<byte>, rs: seq<Record>)
    requires |rs| < 0x1_0000
    ensures ParseFrame(Spoiled(id, rs)).Some? && Spoiled(id, rs) != Whole(id, rs)
    ensures Near(Spoiled(id, rs), Whole(id, rs), 8 * |Body(id, rs)| - 1, 13)
  {
    var x := Body(id, rs);
    FlipLastNear(x);
    SpoiledAccepted(id, rs);
  }

  lemma {:induction false} SpoiledAccepted(id: seq<byte>, rs: seq<Record>)
    requires |rs| < 0x1_0000
    ensures ParseFrame(Spoiled(id, rs)).Some?
  {
    ParseWhole(id, rs);
    assert Whole(id, rs) == Trailed(Body(id, rs));
    HeadDecides(Body(id, rs), FlipLast(Body(id, rs)));
  }

  /** With a right trailer only magic, version, record size and count are left to refuse. */
  lemma {:induction false} HeadDecides(x: seq<byte>, y: seq<byte>)
    requires |x| == |y| >= HEADER_SIZE && x[..8] == y[..8] && ParseFrame(Trailed(x)).Some?
    ensures ParseFrame(Trailed(y)).Some?
  {
    SameHead(Trailed(x), Trailed(y), x[..8]);
    TrailerRead(y);
  }

  lemma {:induction false} TrailerRead(y: seq<byte>)
    ensures var s := Trailed(y); s[..|s| - 2] == y && Rd16(s, |s| - 2) == Crc16(0xFFFF, y)
  {
    var (s, c) := (Trailed(y), Crc16(0xFFFF, y));
    assert s[|s| - 2..|s| - 2 + 2] == Le16(c);
    Rd16Le16(s, |s| - 2, c);
  }

  lemma {:induction false} SameHead(s: seq<byte>, t: seq<byte>, h: seq<byte>)
    requires |h| == 8 && h <= s && h <= t
    ensures s[..4] == t[..4] && s[4] == t[4] && s[5] == t[5] && Rd16(s, 6) == Rd16(t, 6)
  {
    assert s[..4] == h[..4] == t[..4];
    assert forall j :: 4 <= j < 8 ==> s[j] == h[j] == t[j];
  }

  lemma {:induction false} FlipLastNear(x: seq<byte>)
    requires x != []
    ensures Trailed(FlipLast(x)) != Trailed(x) && Near(Trailed(FlipLast(x)), Trailed(x), 8 * |x| - 1, 13)
  {
    var (y, n) := (FlipLast(x), 8 * |x|);
    var (f, g) := (Le16(Crc16(0xFFFF, x)), Le16(Crc16(0xFFFF, y)));
    FlipLastBits(x);
    FlipTrailerBits(x);
    BitsCat(x, f);
    BitsCat(y, g);
    assert Bits(Trailed(x))[n - 1] != Bits(Trailed(y))[n - 1];
    forall j | 0 <= j < n + 16 && !(n - 1 <= j < n + 12) ensures Bits(Trailed(x))[j] == Bits(Trailed(y))[j] {
      if j >= n { assert Bits(f)[j - n] == Bits(g)[j - n]; }
    }
  }

  lemma {:induction false} FlipLastBits(x: seq<byte>)
    requires x != []
    ensures forall j :: 0 <= j < 8 * |x| ==> (Bits(FlipLast(x))[j] == Bits(x)[j] <==> j < 8 * |x| - 1)
  {
    var (y, k) := (FlipLast(x), |x| - 1);
    BitsOfXor(x[k], 1, 8);
    TwoNibbles(0, 1);
    Nibble(0);
    Nibble(1);
    assert y[..k] == x[..k];
    assert Bits(x) == Bits(x[..k]) + BitsOf(x[k], 8) && Bits(y) == Bits(x[..k]) + BitsOf(y[k], 8);
  }

  lemma {:induction false} FlipTrailerBits(x: seq<byte>)
    requires x != []
    ensures forall j :: 12 <= j < 16
              ==> Bits(Le16(Crc16(0xFFFF, FlipLast(x))))[j] == Bits(Le16(Crc16(0xFFFF, x)))[j]
  {
    var (c, d) := (Crc16(0xFFFF, x), Crc16(0xFFFF, FlipLast(x)));
    FlipLastCrc(x);
    BitsOfXor(c, 0x1021, 16);
    PolyIsSparse();
    WireBits(c);
    WireBits(d);
    assert forall j :: 4 <= j < 8 ==> BitsOf(d, 16)[j] == BitsOf(c, 16)[j];
  }
}
