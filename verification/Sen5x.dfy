/** The SEN5x air sensor (src/sen5x.c): CRC-checked words, and the window they are folded into. */
module Sen5x {
  import opened Bytes
  import opened Crc
  import Gf2

  // ---------------------------------------------------------------- the bus

  function Crc8(d: seq<byte>): byte {
    Widths();
    Checksum(SENSIRION, 0xFF, d)
  }

  method ComputeCrc8(d: seq<byte>) returns (crc: byte)
    requires |d| >= 2
    ensures crc == Crc8(d[..2])
    // width 8, x^8 + x^5 + x^4 + 1, from 0xFF, no reflection, no final xor
    ensures Kind(8, 0x31).Valid() && Gf2.Pow2(8) == 0x100 && crc == Checksum(Kind(8, 0x31), 0xFF, d[..2])
  {
    Widths();
    crc := 0xFF;
    for i := 0 to 2
      invariant crc == Crc8(d[..i])
    {
      ghost var mixed := Mix(SENSIRION, crc, d[i]);
      Mix8(crc, d[i]);
      crc := Gf2.XorWord(crc, d[i]);
      for b := 0 to 8
        invariant crc == ShiftN(SENSIRION, mixed, b)
      {
        Shift8(crc);
        crc := if crc >= 0x80 then Gf2.XorWord(2 * (crc as int) % 0x100, 0x31) else 2 * (crc as int) % 0x100;
      }
      assert d[..i + 1][..i] == d[..i];
    }
  }

  lemma Mix8(c: byte, b: byte)
    ensures Gf2.Pow2(8) == 0x100 && SENSIRION.Valid()
    ensures Gf2.XorWord(c, b) == Mix(SENSIRION, c, b)
  {}

  lemma Shift8(c: byte)
    ensures Gf2.Pow2(8) == 0x100 && SENSIRION.Valid()
    ensures var d := 2 * (c as int) % 0x100;
            Shift(SENSIRION, c) == if c >= 0x80 then Gf2.XorWord(d, 0x31) else d
  {}

  /** A word as the module sends it: high byte, low byte, check byte. */
  function Group(w: u16): (g: seq<byte>)
    ensures |g| == 3
  {
    [w / 0x100, w % 0x100, Crc8([w / 0x100, w % 0x100])]
  }

  function Protect(ws: seq<u16>): (raw: seq<byte>)
    ensures |raw| == 3 * |ws|
  {
    if ws == [] then [] else Protect(ws[..|ws| - 1]) + Group(ws[|ws| - 1])
  }

  /** The check loop of read_words on the bytes the bus returned. */
  method ReadWords(raw: seq<byte>, out: array<u16>, words: nat) returns (ok: bool)
    requires |raw| == 3 * words && words <= out.Length
    modifies out
    ensures ok <==> exists ws :: |ws| == words && raw == Protect(ws)
    ensures ok ==> raw == Protect(out[..words])
    ensures ok ==> forall i :: 0 <= i < words ==> out[i] as int == 0x100 * raw[3 * i] as int + raw[3 * i + 1] as int
  {
    assert raw[..0] == Protect(out[..0]);
    for i := 0 to words
      invariant raw[..3 * i] == Protect(out[..i])
    {
      var g := raw[3 * i..3 * i + 3];
      var crc := ComputeCrc8(g);
      if crc != g[2] {
        BadGroup(raw, i, words);
        return false;
      }
      GoodIsGroup(g);
      ghost var before := out[..i];
      out[i] := g[0] as int * 0x100 + g[1] as int;
      assert out[..i + 1] == before + [out[i]];
      ProtectSnoc(before, out[i]);
      assert raw[..3 * (i + 1)] == raw[..3 * i] + g;
    }
    assert raw[..3 * words] == raw;
    HighByteFirst(out[..words]);
    return true;
  }

  lemma ProtectSnoc(ws: seq<u16>, w: u16)
    ensures Protect(ws + [w]) == Protect(ws) + Group(w)
  {}

  lemma {:induction false} GoodIsGroup(g: seq<byte>)
    requires |g| == 3 && GoodGroup(g)
    ensures g == Group(g[0] as int * 0x100 + g[1] as int)
  {
    assert g[..2] == [g[0], g[1]];
  }

  /** A group is accepted exactly when its third byte is the check byte of the first two. */
  predicate GoodGroup(g: seq<byte>)
    requires |g| == 3
  {
    Crc8(g[..2]) == g[2]
  }

  lemma {:induction false} GroupsOf(ws: seq<u16>, i: nat)
    requires i < |ws|
    ensures Protect(ws)[3 * i..3 * i + 3] == Group(ws[i])
    decreases |ws|
  {
    var k := |ws| - 1;
    if i >= k {
    } else {
      GroupsOf(ws[..k], i);
      assert Protect(ws)[3 * i..3 * i + 3] == Protect(ws[..k])[3 * i..3 * i + 3];
    }
  }

  lemma {:induction false} HighByteFirst(ws: seq<u16>)
    ensures forall i :: 0 <= i < |ws| ==>
              ws[i] as int == 0x100 * Protect(ws)[3 * i] as int + Protect(ws)[3 * i + 1] as int
  {
    forall i | 0 <= i < |ws|
      ensures ws[i] as int == 0x100 * Protect(ws)[3 * i] as int + Protect(ws)[3 * i + 1] as int
    {
      GroupsOf(ws, i);
      var g := Protect(ws)[3 * i..3 * i + 3];
      assert g[0] == Protect(ws)[3 * i] && g[1] == Protect(ws)[3 * i + 1];
    }
  }

  lemma {:induction false} BadGroup(raw: seq<byte>, i: nat, words: nat)
    requires i < words && |raw| == 3 * words && !GoodGroup(raw[3 * i..3 * i + 3])
    ensures forall ws: seq<u16> :: |ws| == words ==> raw != Protect(ws)
  {
    forall ws: seq<u16> | |ws| == words ensures raw != Protect(ws) {
      GroupsOf(ws, i);
      var g := Group(ws[i]);
      assert g[..2] == [g[0], g[1]];
    }
  }

  /** What is accepted decodes to one word list only: reading undoes protecting. */
  lemma {:induction false} ProtectInjective(a: seq<u16>, b: seq<u16>)
    requires Protect(a) == Protect(b)
    ensures a == b
  {
    forall i | 0 <= i < |a| ensures a[i] == b[i] {
      GroupsOf(a, i);
      GroupsOf(b, i);
      assert Group(a[i])[0] == Group(b[i])[0] && Group(a[i])[1] == Group(b[i])[1];
    }
  }

  /** The check byte is the remainder of its word behind eight one-bits, on division by
      x^8 + x^5 + x^4 + 1, and no other byte would be. */
  lemma {:induction false} CheckByteIsRemainder(g: seq<byte>)
    requires |g| == 3
    ensures var p := [false, false, true, true, false, false, false, true];
            GoodGroup(g) <==> Gf2.IsRemainder(p, Gf2.Ones(8), Bits(g[..2]), Gf2.BitsOf(g[2], 8))
  {
    GeneratorBits();
    CrcIsRemainder(SENSIRION, 0xFF, g[..2], g[2]);
  }

  lemma {:induction false} GeneratorBits()
    ensures SENSIRION.Valid() && Gf2.Pow2(8) == 0x100 && Gf2.BitsOf(0xFF, 8) == Gf2.Ones(8)
    ensures SENSIRION.P() == [false, false, true, true, false, false, false, true]
  {
    Widths();
    Gf2.TwoNibbles(3, 1);
    Gf2.Nibble(3);
    Gf2.Nibble(1);
    Gf2.OneBits(8);
  }

  /** Any corruption of an accepted group confined to 8 consecutive bits of its 24 is rejected. */
  lemma {:induction false} GroupBurst(g: seq<byte>, bad: seq<byte>, i: nat)
    requires |g| == |bad| == 3 && GoodGroup(g) && bad != g
    requires forall j :: 0 <= j < 24 && !(i <= j < i + 8) ==> Bits(bad)[j] == Bits(g)[j]
    ensures !GoodGroup(bad)
  {
    Widths();
    SelfCheck(g[..2], g[2]);
    SelfCheck(bad[..2], bad[2]);
    assert g == g[..2] + [g[2]] && bad == bad[..2] + [bad[2]];
    BurstChangesCrc(SENSIRION, 0xFF, g, bad, i);
  }

  /** Feeding the check byte itself leaves the register that only it leaves. */
  lemma {:induction false} SelfCheck(d: seq<byte>, b: byte)
    ensures Gf2.Pow2(8) == 0x100 && SENSIRION.Valid()
    ensures b == Crc8(d) <==> Checksum(SENSIRION, 0xFF, d + [b]) == 0
  {
    Widths();
    var c := Checksum(SENSIRION, 0xFF, d);
    assert (d + [b])[..|d|] == d;
    Gf2.BitsOfXor(c, b, 8);
    Mix8(c, b);
    XorSelf(c, b);
    FromZero(Mix(SENSIRION, c, b), 8);
  }

  lemma {:induction false} XorSelf(a: nat, b: nat)
    ensures Gf2.XorWord(a, b) == 0 <==> a == b
  {
    if a == 0 && b == 0 {
    } else {
      XorSelf(a / 2, b / 2);
    }
  }

  /** Shifting maps zero, and only zero, to zero. */
  lemma {:induction false} FromZero(c: nat, i: nat)
    requires Gf2.Pow2(8) == 0x100 && SENSIRION.Valid() && c < 0x100
    ensures ShiftN(SENSIRION, c, i) == 0 <==> c == 0
  {
    if i == 0 {
    } else {
      FromZero(c, i - 1);
      ShiftZero(ShiftN(SENSIRION, c, i - 1));
    }
  }

  lemma {:induction false} ShiftZero(s: byte)
    requires SENSIRION.Valid() && Gf2.Pow2(8) == 0x100
    ensures Shift(SENSIRION, s) == 0 <==> s == 0
  {
    Widths();
    OddShift(SENSIRION, s, 0x80);
  }

  /** The generator is odd and a shifted word even, so they never cancel. */
  lemma {:induction false} OddShift(k: Kind, c: nat, top: nat)
    requires k.Valid() && Gf2.Pow2(k.n - 1) == top && c < Gf2.Pow2(k.n)
    ensures Shift(k, c) == 0 <==> c == 0
  {
    ShiftIs(k, c, top, 2 * top);
    if c < top { Gf2.ModUnique(2 * c, 2 * top, 0, 2 * c); } else { Gf2.ModUnique(2 * c, 2 * top, 1, 2 * (c - top)); }
    XorSelf(2 * c % (2 * top), k.poly);
  }

  // ---------------------------------------------------------------- the window

  const UNKNOWN_U: u16 := 0xFFFF
  const UNKNOWN_S: i16 := 0x7FFF

  datatype Air = Air(pm25: u16, pm10: u16, temp: i16, rh: i16, voc: i16, alive: bool)

  const EMPTY := Air(UNKNOWN_U, UNKNOWN_U, UNKNOWN_S, UNKNOWN_S, UNKNOWN_S, false)

  /** The words of one good read, in bus order: PM1.0, PM2.5, PM4.0, PM10, humidity,
      temperature, VOC, NOx. */
  type Sample = w: seq<u16> | |w| == 8 witness [0, 0, 0, 0, 0, 0, 0, 0]

  function Peak(a: u16, w: u16): u16 { if w != 0xFFFF && (a == UNKNOWN_U || w > a) then w else a }

  /** (int16_t)w / 2: half the signed word, truncated toward zero. */
  function Half(w: u16): (t: i16)
    ensures -0x4000 <= t < 0x4000 && IsHalf(w, t)
  {
    var x: int := Signed(w);
    if x >= 0 then x / 2 else -(-x / 2)
  }

  /** x is w read as a two's complement word. */
  predicate IsSigned(w: u16, x: int) { x == if w >= 0x8000 then w as int - 0x1_0000 else w as int }

  /** t is half of that, and no further from zero. */
  predicate IsHalf(w: u16, t: int) {
    var x := if w >= 0x8000 then w as int - 0x1_0000 else w as int;
    if x >= 0 then 0 <= x - 2 * t <= 1 else -1 <= x - 2 * t <= 0
  }

  function Fold(a: Air, w: Sample): Air {
    Air(Peak(a.pm25, w[1]), Peak(a.pm10, w[3]),
        if w[5] != 0xFFFF then Half(w[5]) else a.temp,
        if w[4] != 0xFFFF then Signed(w[4]) else a.rh,
        if w[6] != 0xFFFF then Signed(w[6]) else a.voc, true)
  }

  /** STATUS_FATAL: fan (bit 4) or laser (bit 5). */
  predicate Fatal(status: u32) { status / 0x10 % 4 != 0 }

  /** What one sample makes of the window, word by word: PM from 1 and 3, humidity from 4,
      temperature from 5, VOC from 6; 0xFFFF is no value. */
  ghost predicate Absorbed(a: Air, w: Sample, b: Air) {
    && b.alive
    && b.pm25 == (if w[1] != 0xFFFF && (a.pm25 == 0xFFFF || w[1] > a.pm25) then w[1] else a.pm25)
    && b.pm10 == (if w[3] != 0xFFFF && (a.pm10 == 0xFFFF || w[3] > a.pm10) then w[3] else a.pm10)
    && (if w[4] != 0xFFFF then IsSigned(w[4], b.rh) else b.rh == a.rh)
    && (if w[5] != 0xFFFF then IsHalf(w[5], b.temp) else b.temp == a.temp)
    && (if w[6] != 0xFFFF then IsSigned(w[6], b.voc) else b.voc == a.voc)
  }

  lemma FoldAbsorbs(a: Air, w: Sample)
    ensures Absorbed(a, w, Fold(a, w))
  {}

  ghost predicate Brings(read: Option<seq<byte>>, ws: seq<u16>) { read.Some? && read.value == Protect(ws) }

  /** The words a read brought, if it came at all and every check byte is right. */
  ghost function Words(read: Option<seq<byte>>): (r: Option<seq<u16>>)
    ensures r.Some? ==> Brings(read, r.value)
    ensures r.None? ==> forall ws :: !Brings(read, ws)
  {
    if ws :| Brings(read, ws) then Some(ws) else None
  }

  lemma {:induction false} WordsAre(read: Option<seq<byte>>, ws: seq<u16>)
    requires Brings(read, ws)
    ensures Words(read) == Some(ws)
  {
    ProtectInjective(Words(read).value, ws);
  }

  class Sensor {
    var running: bool
    var acc: Air

    constructor ()
      ensures !running && acc == EMPTY
    {
      running, acc := false, EMPTY;
    }

    /** read_words: n words, if the transfer worked and every check byte is right. */
    method ReadBus(read: Option<seq<byte>>, n: nat) returns (ws: Option<seq<u16>>)
      requires read.Some? ==> |read.value| == 3 * n
      ensures ws == Words(read) && (ws.Some? ==> |ws.value| == n)
    {
      if read.None? { return None; }
      assert Words(read).Some? ==> |Words(read).value| == n;
      var w := new u16[n](_ => 0);
      var ok := ReadWords(read.value, w, n);
      if !ok { return None; }
      WordsAre(read, w[..n]);
      return Some(w[..n]);
    }

    /** sen5x_poll; read is what the bus returned for the eight measured values. */
    method Poll(read: Option<seq<byte>>)
      requires read.Some? ==> |read.value| == 24
      modifies this
      ensures running == old(running)
      ensures running && Words(read).Some? ==>
                |Words(read).value| == 8 && acc == Fold(old(acc), Words(read).value)
                && Absorbed(old(acc), Words(read).value, acc)
      ensures !running || Words(read).None? ==> acc == old(acc)
    {
      if !running { return; }
      var r := ReadBus(read, 8);
      if r.None? { return; }
      FoldAbsorbs(acc, r.value);
      Absorb(r.value);
    }

    method Absorb(w: Sample)
      modifies this`acc
      ensures acc == Fold(old(acc), w)
    {
      if w[1] != 0xFFFF && (acc.pm25 == UNKNOWN_U || w[1] > acc.pm25) { acc := acc.(pm25 := w[1]); }
      if w[3] != 0xFFFF && (acc.pm10 == UNKNOWN_U || w[3] > acc.pm10) { acc := acc.(pm10 := w[3]); }
      if w[4] != 0xFFFF { acc := acc.(rh := Signed(w[4])); }
      if w[5] != 0xFFFF { acc := acc.(temp := Half(w[5])); }
      if w[6] != 0xFFFF { acc := acc.(voc := Signed(w[6])); }
      acc := acc.(alive := true);
    }

    /** sen5x_window_take; status is what the bus returns for the two status words, which are
        asked for only when something was read. */
    method WindowTake(status: Option<seq<byte>>) returns (out: Air)
      requires status.Some? ==> |status.value| == 6
      modifies this
      ensures running == old(running) && acc == EMPTY
      ensures out == old(acc).(alive := out.alive)
      // a status that was read kills the window exactly by its bits 4 and 5; an unread one does not
      ensures out.alive == (old(acc).alive && !Killed(status))
    {
      if acc.alive {
        var st := ReadBus(status, 2);
        if st.Some? && Fatal(st.value[0] as int * 0x1_0000 + st.value[1] as int) {
          FatalBits(st.value[0], st.value[1]);
          acc := acc.(alive := false);
        } else if st.Some? {
          FatalBits(st.value[0], st.value[1]);
        }
      }
      out := acc;
      acc := EMPTY;
    }
  }

  /** Fan or laser reported failed: bit 4 or bit 5 of the low status word. */
  ghost predicate Killed(status: Option<seq<byte>>) {
    var st := Words(status);
    st.Some? && |st.value| == 2 && (st.value[1] / 16 % 2 == 1 || st.value[1] / 32 % 2 == 1)
  }

  lemma {:induction false} FatalBits(hi: u16, lo: u16)
    ensures Fatal(hi as int * 0x1_0000 + lo as int) <==> lo / 16 % 2 == 1 || lo / 32 % 2 == 1
  {
    var (q, s) := (lo / 16, hi as int * 0x1_0000 + lo as int);
    Gf2.ModUnique(s, 16, hi as int * 0x1000 + q, lo % 16);
    Gf2.ModUnique(s / 16, 4, hi as int * 0x400 + q / 4, q % 4);
    assert lo / 32 == q / 2;
  }

  function After(ws: seq<Sample>): Air {
    if ws == [] then EMPTY else Fold(After(ws[..|ws| - 1]), ws[|ws| - 1])
  }

  /** One word over the samples of a window. */
  function Column(ws: seq<Sample>, word: Sample -> u16): (c: seq<u16>)
    ensures |c| == |ws| && forall i :: 0 <= i < |c| ==> c[i] == word(ws[i])
  {
    seq(|ws|, i requires 0 <= i < |ws| => word(ws[i]))
  }

  /** The largest known value, 0xFFFF if none was ever known. */
  ghost predicate IsPeak(v: u16, c: seq<u16>) {
    && (forall i :: 0 <= i < |c| ==> c[i] == 0xFFFF || c[i] <= v)
    && (v == 0xFFFF <==> forall i :: 0 <= i < |c| ==> c[i] == 0xFFFF)
    && (v != 0xFFFF ==> v in c)
  }

  /** The last known value. */
  function LastKnown(c: seq<u16>): (r: Option<u16>)
    ensures r.Some? ==> exists i :: 0 <= i < |c| && c[i] == r.value != 0xFFFF
                                    && forall j :: i < j < |c| ==> c[j] == 0xFFFF
    ensures r.None? <==> forall i :: 0 <= i < |c| ==> c[i] == 0xFFFF
  {
    if c == [] then None
    else if c[|c| - 1] != 0xFFFF then Some(c[|c| - 1])
    else LastKnown(c[..|c| - 1])
  }

  /** PM is peak-held, the rest last-value, over every sequence of good reads in a window. */
  lemma {:induction false} WindowOfSamples(ws: seq<Sample>)
    ensures IsPeak(After(ws).pm25, Column(ws, (w: Sample) => w[1]))
    ensures IsPeak(After(ws).pm10, Column(ws, (w: Sample) => w[3]))
    ensures match LastKnown(Column(ws, (w: Sample) => w[5]))
            case None => After(ws).temp == 0x7FFF
            case Some(x) => IsHalf(x, After(ws).temp)
    ensures match LastKnown(Column(ws, (w: Sample) => w[4]))
            case None => After(ws).rh == 0x7FFF
            case Some(x) => IsSigned(x, After(ws).rh)
    ensures match LastKnown(Column(ws, (w: Sample) => w[6]))
            case None => After(ws).voc == 0x7FFF
            case Some(x) => IsSigned(x, After(ws).voc)
    ensures After(ws).alive <==> ws != []
    decreases |ws|
  {
    if ws == [] {
    } else {
      var k := |ws| - 1;
      var early := ws[..k];
      WindowOfSamples(early);
      ColumnSnoc(ws, (w: Sample) => w[1]);
      ColumnSnoc(ws, (w: Sample) => w[3]);
      ColumnSnoc(ws, (w: Sample) => w[5]);
      ColumnSnoc(ws, (w: Sample) => w[4]);
      ColumnSnoc(ws, (w: Sample) => w[6]);
      PeakSnoc(After(early).pm25, Column(early, (w: Sample) => w[1]), ws[k][1]);
      PeakSnoc(After(early).pm10, Column(early, (w: Sample) => w[3]), ws[k][3]);
      LastSnoc(Column(early, (w: Sample) => w[5]), ws[k][5]);
      LastSnoc(Column(early, (w: Sample) => w[4]), ws[k][4]);
      LastSnoc(Column(early, (w: Sample) => w[6]), ws[k][6]);
    }
  }

  lemma ColumnSnoc(ws: seq<Sample>, word: Sample -> u16)
    requires ws != []
    ensures Column(ws, word) == Column(ws[..|ws| - 1], word) + [word(ws[|ws| - 1])]
  {}

  lemma {:induction false} PeakSnoc(v: u16, c: seq<u16>, w: u16)
    requires IsPeak(v, c)
    ensures IsPeak(Peak(v, w), c + [w])
  {
    assert forall i :: 0 <= i < |c| ==> (c + [w])[i] == c[i];
    assert (c + [w])[|c|] == w;
  }

  lemma LastSnoc(c: seq<u16>, w: u16)
    ensures LastKnown(c + [w]) == if w != 0xFFFF then Some(w) else LastKnown(c)
  {}

  /** Temperature reads unknown exactly when no good one arrived; humidity and VOC also when the
      last good word was the sentinel's own bit pattern. */
  lemma {:induction false} UnknownExactly(ws: seq<Sample>)
    ensures After(ws).temp == UNKNOWN_S <==> LastKnown(Column(ws, (w: Sample) => w[5])) == None
    ensures After(ws).rh == UNKNOWN_S <==> LastKnown(Column(ws, (w: Sample) => w[4])) in {None, Some(0x7FFF)}
    ensures After(ws).voc == UNKNOWN_S <==> LastKnown(Column(ws, (w: Sample) => w[6])) in {None, Some(0x7FFF)}
  {
    WindowOfSamples(ws);
  }

  /** Reading the latest sample again changes nothing. */
  lemma FoldIdempotent(a: Air, w: Sample)
    ensures Fold(Fold(a, w), w) == Fold(a, w)
  {}
}
