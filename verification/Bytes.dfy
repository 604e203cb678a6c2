/** Bytes, the fixed-width integers of the C sources, and little-endian layout. */
module Bytes {
  type byte = x: int | 0 <= x < 0x100
  type u16 = x: int | 0 <= x < 0x1_0000
  type u32 = x: int | 0 <= x < 0x1_0000_0000
  type i16 = x: int | -0x8000 <= x < 0x8000

  datatype Option<+T> = None | Some(value: T)

  function Le16(x: u16): (s: seq<byte>)
    ensures |s| == 2
  {
    [x % 0x100, x / 0x100]
  }

  function Le32(x: u32): (s: seq<byte>)
    ensures |s| == 4
  {
    [x % 0x100, x / 0x100 % 0x100, x / 0x1_0000 % 0x100, x / 0x100_0000]
  }

  function Rd16(s: seq<byte>, off: nat): u16
    requires off + 2 <= |s|
  {
    s[off] as int + 0x100 * (s[off + 1] as int)
  }

  function Rd32(s: seq<byte>, off: nat): u32
    requires off + 4 <= |s|
  {
    s[off] as int + 0x100 * (s[off + 1] as int) + 0x1_0000 * (s[off + 2] as int)
      + 0x100_0000 * (s[off + 3] as int)
  }

  /** The bit pattern of a signed 16-bit value, and back: the casts to uint16_t and int16_t. */
  function Unsigned(x: i16): (w: u16)
    ensures w as int == x as int % 0x1_0000
  {
    if x < 0 then x + 0x1_0000 else x
  }

  function Signed(w: u16): (x: i16)
    ensures x as int % 0x1_0000 == w as int
  {
    if w >= 0x8000 then w - 0x1_0000 else w
  }

  /** Little-endian layout loses nothing: reading back what was laid down, wherever it sits. */
  lemma {:induction false} Rd32Le32(s: seq<byte>, off: nat, x: u32)
    requires off + 4 <= |s| && s[off..off + 4] == Le32(x)
    ensures Rd32(s, off) == x
  {
    var t := s[off..off + 4];
    assert s[off] == t[0] && s[off + 1] == t[1] && s[off + 2] == t[2] && s[off + 3] == t[3];
    Sum32(x);
  }

  lemma {:induction false} Sum32(x: u32)
    ensures x == x % 0x100 + 0x100 * (x / 0x100 % 0x100) + 0x1_0000 * (x / 0x1_0000 % 0x100)
                 + 0x100_0000 * (x / 0x100_0000)
  {
    assert x / 0x1_0000 == x / 0x100 / 0x100;
    assert x / 0x100_0000 == x / 0x1_0000 / 0x100;
  }

  lemma {:induction false} Rd16Le16(s: seq<byte>, off: nat, x: u16)
    requires off + 2 <= |s| && s[off..off + 2] == Le16(x)
    ensures Rd16(s, off) == x
  {
    var t := s[off..off + 2];
    assert s[off] == t[0] && s[off + 1] == t[1];
  }

  lemma {:induction false} Le32Rd32(s: seq<byte>, off: nat)
    requires off + 4 <= |s|
    ensures Le32(Rd32(s, off)) == s[off..off + 4]
  {
    Digits32(s[off], s[off + 1], s[off + 2], s[off + 3]);
  }

  lemma {:induction false} Digits32(a: byte, b: byte, c: byte, d: byte)
    ensures var x := a as int + 0x100 * (b as int) + 0x1_0000 * (c as int) + 0x100_0000 * (d as int);
            0 <= x < 0x1_0000_0000 && Le32(x) == [a, b, c, d]
  {
    var x := a as int + 0x100 * (b as int) + 0x1_0000 * (c as int) + 0x100_0000 * (d as int);
    assert x / 0x100 == b as int + 0x100 * (c as int) + 0x1_0000 * (d as int);
    assert x / 0x1_0000 == c as int + 0x100 * (d as int);
    assert x / 0x100_0000 == d;
    assert x % 0x100 == a;
  }

  lemma Le16Rd16(s: seq<byte>, off: nat)
    requires off + 2 <= |s|
    ensures Le16(Rd16(s, off)) == s[off..off + 2]
  {}

  lemma Assoc(a: seq<byte>, b: seq<byte>, c: seq<byte>)
    ensures a + (b + c) == a + b + c
  {}

  /** Concatenation of a list of byte strings. */
  function Concat(parts: seq<seq<byte>>): seq<byte> {
    if parts == [] then [] else Concat(parts[..|parts| - 1]) + parts[|parts| - 1]
  }

  lemma {:induction false} ConcatSplit(a: seq<seq<byte>>, b: seq<seq<byte>>)
    ensures Concat(a + b) == Concat(a) + Concat(b)
    decreases |b|
  {
    if b == [] {
      assert a + b == a;
    } else {
      var k := |b| - 1;
      assert (a + b)[..|a + b| - 1] == a + b[..k];
      ConcatSplit(a, b[..k]);
      assert Concat(a) + (Concat(b[..k]) + b[k]) == Concat(a) + Concat(b[..k]) + b[k];
    }
  }
}
