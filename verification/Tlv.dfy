/** The TLV decoder for radar frames (tlv_find, tlv_targets, tlv_presence in src/tlv.c). */
module Tlv {
  import opened Bytes
  import opened Reassembler

  const TARGET_LIST: u32 := 308
  const ENHANCED_PRESENCE: u32 := 315

  // ---------------------------------------------------------------- the walk

  datatype Entry = Entry(kind: u32, at: nat, len: nat)

  /** The entries from off on, up to the first whose length does not fit the frame. */
  function Walk(f: seq<byte>, off: nat, total: nat): seq<Entry>
    requires total <= |f|
    decreases total - off
  {
    if off + 8 > total then []
    else
      var ln := Rd32(f, off + 4);
      if off + 8 + ln > total then []
      else [Entry(Rd32(f, off), off + 8, ln)] + Walk(f, off + 8 + ln, total)
  }

  /** The first entry of a kind. */
  function FirstOf(es: seq<Entry>, kind: u32): (r: Option<Entry>)
    ensures r.Some? ==> r.value in es && r.value.kind == kind
  {
    if es == [] then None else if es[0].kind == kind then Some(es[0]) else FirstOf(es[1..], kind)
  }

  lemma {:induction false} FirstOfIsFirst(es: seq<Entry>, kind: u32)
    ensures match FirstOf(es, kind)
            case None => forall j :: 0 <= j < |es| ==> es[j].kind != kind
            case Some(e) => exists i :: 0 <= i < |es| && es[i] == e && e.kind == kind
                                        && forall j :: 0 <= j < i ==> es[j].kind != kind
    decreases |es|
  {
    if es != [] && es[0].kind != kind {
      FirstOfIsFirst(es[1..], kind);
      var r := FirstOf(es[1..], kind);
      if r.Some? {
        var i :| 0 <= i < |es[1..]| && es[1..][i] == r.value && forall j :: 0 <= j < i ==> es[1..][j].kind != kind;
        assert es[i + 1] == r.value;
        assert forall j :: 0 < j < i + 1 ==> es[j] == es[1..][j - 1];
      } else {
        assert forall j :: 0 < j < |es| ==> es[j] == es[1..][j - 1];
      }
    }
  }

  /** Addition on uint32_t. */
  function Add32(a: u32, b: u32): u32 { (a as int + b as int) % 0x1_0000_0000 }

  /** tlv_find. Every read stays inside the frame, and none of the sums wraps. */
  method Find(frame: array<byte>, kind: u32) returns (at: Option<nat>, len: u32)
    requires HDR_LEN <= frame.Length <= MAX_FRAME && Rd32(frame[..], 12) <= frame.Length
    ensures var e := FirstOf(Walk(frame[..], HDR_LEN, Rd32(frame[..], 12)), kind);
            match e
            case None => at == None && len == 0
            case Some(e) => at == Some(e.at) && len == e.len && e.at + e.len <= Rd32(frame[..], 12) as nat
  {
    ghost var f := frame[..];
    var total := Rd32(frame[..], 12);
    var off: u32 := HDR_LEN;
    NoWrap(off, 8);
    while Add32(off, 8) <= total
      invariant (off <= total || off == HDR_LEN) && Add32(off, 8) == off as int + 8
      invariant FirstOf(Walk(f, off, total), kind) == FirstOf(Walk(f, HDR_LEN, total), kind)
      decreases total as int - off as int
    {
      var t, ln := Rd32(frame[..], off), Rd32(frame[..], off as nat + 4);
      WalkFirst(f, off, total, kind);
      if ln <= total { NoWrap(Add32(off, 8), ln); }
      if ln > total || Add32(Add32(off, 8), ln) > total { return None, 0; }
      if t == kind { return Some(off as nat + 8), ln; }
      off := Add32(Add32(off, 8), ln);
      NoWrap(off, 8);
    }
    return None, 0;
  }

  lemma NoWrap(a: u32, b: u32)
    ensures a as int + b as int < 0x1_0000_0000 ==> Add32(a, b) == a as int + b as int
  {}

  lemma WalkFirst(f: seq<byte>, off: nat, total: nat, kind: u32)
    requires off + 8 <= total <= |f|
    ensures var (ln, r) := (Rd32(f, off + 4) as nat, FirstOf(Walk(f, off, total), kind));
            if off + 8 + ln > total then r == None
            else if Rd32(f, off) == kind then r == Some(Entry(kind, off + 8, ln))
            else r == FirstOf(Walk(f, off + 8 + ln, total), kind)
  {}

  // ---------------------------------------------------------------- frames built from TLVs

  datatype Block = Block(kind: u32, payload: seq<byte>)

  function TlvBytes(t: Block): seq<byte>
    requires |t.payload| < 0x1_0000_0000
  {
    Le32(t.kind) + Le32(|t.payload|) + t.payload
  }

  ghost predicate Sized(ts: seq<Block>) { forall i :: 0 <= i < |ts| ==> |ts[i].payload| < 0x1_0000_0000 }

  function TlvsBytes(ts: seq<Block>): seq<byte>
    requires Sized(ts)
  {
    if ts == [] then [] else TlvBytes(ts[0]) + TlvsBytes(ts[1..])
  }

  datatype Header = Header(version: u32, platform: u32, frameNo: u32, cycles: u32, detected: u32, tlvs: u32, sub: u32)

  function FrameBytes(h: Header, ts: seq<Block>): (f: seq<byte>)
    requires Sized(ts) && HDR_LEN + |TlvsBytes(ts)| <= MAX_FRAME
    ensures |f| == HDR_LEN + |TlvsBytes(ts)|
  {
    Magic() + Le32(h.version) + Le32(HDR_LEN + |TlvsBytes(ts)|) + Le32(h.platform) + Le32(h.frameNo)
      + Le32(h.cycles) + Le32(h.detected) + Le32(h.tlvs) + Le32(h.sub) + TlvsBytes(ts)
  }

  /** The radar's frames are well formed, so the reassembler delivers them. */
  lemma {:induction false} BuiltWellFormed(h: Header, ts: seq<Block>)
    requires Sized(ts) && HDR_LEN + |TlvsBytes(ts)| <= MAX_FRAME
    ensures WellFormed(FrameBytes(h, ts)) && FrameBytes(h, ts)[HDR_LEN..] == TlvsBytes(ts)
  {
    var f := FrameBytes(h, ts);
    assert f[12..16] == Le32(HDR_LEN + |TlvsBytes(ts)|);
    Rd32Le32(f, 12, HDR_LEN + |TlvsBytes(ts)|);
    assert f[..MAGIC_LEN] == Magic();
  }

  /** The walk finds the TLVs a frame was built from, each where its payload lies. */
  ghost predicate WalkMatches(f: seq<byte>, es: seq<Entry>, ts: seq<Block>) {
    |es| == |ts| && forall i :: 0 <= i < |es| ==>
      es[i].kind == ts[i].kind && es[i].at + es[i].len <= |f| && f[es[i].at..es[i].at + es[i].len] == ts[i].payload
  }

  lemma TlvsCons(ts: seq<Block>)
    requires Sized(ts) && ts != []
    ensures Sized(ts[1..]) && TlvsBytes(ts) == TlvBytes(ts[0]) + TlvsBytes(ts[1..])
  {}

  lemma {:induction false} WalkBuilt(f: seq<byte>, off: nat, ts: seq<Block>)
    requires Sized(ts) && off <= |f| && f[off..] == TlvsBytes(ts)
    ensures WalkMatches(f, Walk(f, off, |f|), ts)
    decreases |ts|
  {
    if |ts| == 0 {
      assert f[off..] == [];
      assert Walk(f, off, |f|) == [];
    } else {
      TlvsCons(ts);
      TlvAt(f, off, ts[0], TlvsBytes(ts[1..]));
      WalkBuilt(f, off + 8 + |ts[0].payload|, ts[1..]);
      WalkHead(f, off, ts);
    }
  }

  lemma WalkHead(f: seq<byte>, off: nat, ts: seq<Block>)
    requires ts != [] && off + 8 + |ts[0].payload| <= |f|
    requires Rd32(f, off) == ts[0].kind && Rd32(f, off + 4) == |ts[0].payload|
    requires f[off + 8..off + 8 + |ts[0].payload|] == ts[0].payload
    requires WalkMatches(f, Walk(f, off + 8 + |ts[0].payload|, |f|), ts[1..])
    ensures WalkMatches(f, Walk(f, off, |f|), ts)
  {}

  lemma FourParts(a: seq<byte>, b: seq<byte>, c: seq<byte>, d: seq<byte>)
    requires |a| == |b| == 4
    ensures var s := a + b + c + d;
            s[..4] == a && s[4..8] == b && s[8..8 + |c|] == c && s[8 + |c|..] == d
  {}

  lemma {:induction false} TlvAt(f: seq<byte>, off: nat, t: Block, rest: seq<byte>)
    requires off <= |f| && |t.payload| < 0x1_0000_0000 && f[off..] == TlvBytes(t) + rest
    ensures off + 8 + |t.payload| <= |f| && Rd32(f, off) == t.kind && Rd32(f, off + 4) == |t.payload|
    ensures f[off + 8..off + 8 + |t.payload|] == t.payload && f[off + 8 + |t.payload|..] == rest
  {
    var (tail, n) := (f[off..], |t.payload|);
    FourParts(Le32(t.kind), Le32(n), t.payload, rest);
    assert f[off..off + 4] == tail[..4] && f[off + 4..off + 8] == tail[4..8];
    assert f[off + 8..off + 8 + n] == tail[8..8 + n] && f[off + 8 + n..] == tail[8 + n..];
    Rd32Le32(f, off, t.kind);
    Rd32Le32(f, off + 4, n);
  }

  function FirstTlv(ts: seq<Block>, kind: u32): Option<Block> {
    if ts == [] then None else if ts[0].kind == kind then Some(ts[0]) else FirstTlv(ts[1..], kind)
  }

  /** What tlv_find answers on a built frame: the payload of the first TLV of that kind, or
      nothing exactly when there is none. */
  lemma {:induction false} FindBuilt(h: Header, ts: seq<Block>, kind: u32)
    requires Sized(ts) && HDR_LEN + |TlvsBytes(ts)| <= MAX_FRAME
    ensures var f := FrameBytes(h, ts);
            Rd32(f, 12) == |f| &&
            match FirstOf(Walk(f, HDR_LEN, |f|), kind)
            case None => FirstTlv(ts, kind) == None
            case Some(e) => e.at + e.len <= |f| && FirstTlv(ts, kind) == Some(Block(kind, f[e.at..e.at + e.len]))
  {
    var f := FrameBytes(h, ts);
    BuiltWellFormed(h, ts);
    WalkBuilt(f, HDR_LEN, ts);
    FirstMatches(f, Walk(f, HDR_LEN, |f|), ts, kind);
  }

  lemma {:induction false} FirstMatches(f: seq<byte>, es: seq<Entry>, ts: seq<Block>, kind: u32)
    requires WalkMatches(f, es, ts)
    ensures match FirstOf(es, kind)
            case None => FirstTlv(ts, kind) == None
            case Some(e) => e.at + e.len <= |f| && FirstTlv(ts, kind) == Some(Block(kind, f[e.at..e.at + e.len]))
    decreases |es|
  {
    if es == [] || es[0].kind == kind {
    } else {
      FirstMatches(f, es[1..], ts[1..], kind);
    }
  }

  // ---------------------------------------------------------------- target lists

  const SIZE_3D: nat := 112
  const SIZE_2D: nat := 76

  /** Coordinates are carried as the bit patterns of their floats. */
  datatype Target = Target(tid: u32, x: u32, y: u32, z: u32)

  /** Which struct the payload length divides by; 0 for neither. */
  function TargetSize(len: nat): nat {
    if len == 0 then 0
    else if len % SIZE_3D == 0 then SIZE_3D
    else if len % SIZE_2D == 0 then SIZE_2D
    else 0
  }

  function FirstTarget(p: seq<byte>, size: nat): Target
    requires |p| >= 16
  {
    Target(Rd32(p, 0), Rd32(p, 4), Rd32(p, 8), if size == SIZE_3D then Rd32(p, 12) else 0)
  }

  function Min(a: nat, b: nat): nat { if a < b then a else b }

  /** One target for each whole struct, at most max. */
  function Strided(p: seq<byte>, size: nat, max: nat): (ts: seq<Target>)
    requires size >= 16
    ensures |ts| <= max
    decreases |p|
  {
    if |p| < size || max == 0 then [] else [FirstTarget(p, size)] + Strided(p[size..], size, max - 1)
  }

  function DecodeTargets(p: seq<byte>, max: nat): (ts: seq<Target>)
    ensures |ts| <= max
  {
    var size := TargetSize(|p|);
    if size == 0 then [] else Strided(p, size, max)
  }

  /** tlv_targets; the payload is read only. */
  method Targets(p: seq<byte>, out: array<Target>, max: nat) returns (n: nat)
    requires max <= out.Length
    modifies out
    ensures n <= max && out[..n] == DecodeTargets(p, max)
  {
    var size: nat;
    if |p| == 0 { return 0; }
    if |p| % SIZE_3D == 0 {
      size := SIZE_3D;
    } else if |p| % SIZE_2D == 0 {
      size := SIZE_2D;
    } else {
      return 0;
    }
    n := CopyTargets(p, out, max, size);
  }

  method CopyTargets(p: seq<byte>, out: array<Target>, max: nat, size: nat) returns (n: nat)
    requires max <= out.Length && size >= 16
    modifies out
    ensures n <= max && out[..n] == Strided(p, size, max)
  {
    ghost var rest := Strided(p, size, max);
    ghost var all := rest;
    assert p[0..] == p;
    var off := 0;
    n := 0;
    while off + size <= |p| && n < max
      invariant n <= max && off <= |p|
      invariant rest == Strided(p[off..], size, max - n) && out[..n] + rest == all
      decreases |p| - off
    {
      StridedStep(p, off, size, max - n);
      ghost var done := out[..n];
      PutTarget(p[off..off + size], out, n, size);
      MoveOver(done, out[n], rest);
      rest := rest[1..];
      n := n + 1;
      off := off + size;
    }
    StridedEnd(p, off, size, max - n);
  }

  lemma MoveOver(done: seq<Target>, t: Target, rest: seq<Target>)
    requires rest != [] && rest[0] == t
    ensures done + rest == done + [t] + rest[1..]
  {}

  method PutTarget(p: seq<byte>, out: array<Target>, n: nat, size: nat)
    requires n < out.Length && |p| >= 16
    modifies out
    ensures out[..n + 1] == old(out[..n]) + [FirstTarget(p, size)]
  {
    out[n] := FirstTarget(p, size);
  }

  lemma StridedEnd(p: seq<byte>, off: nat, size: nat, max: nat)
    requires size >= 16 && off <= |p| && (off + size > |p| || max == 0)
    ensures Strided(p[off..], size, max) == []
  {}

  lemma StridedStep(p: seq<byte>, off: nat, size: nat, max: nat)
    requires size >= 16 && off + size <= |p| && max > 0
    ensures Strided(p[off..], size, max)
         == [FirstTarget(p[off..off + size], size)] + Strided(p[off + size..], size, max - 1)
  {}

  /** One element of the radar's array: the first four words, then the rest of the struct. A 2D
      struct has no z; its fourth word is something else. */
  datatype Raw = Raw(t: Target, rest: seq<byte>)

  function RawBytes(r: Raw): seq<byte> { Le32(r.t.tid) + Le32(r.t.x) + Le32(r.t.y) + Le32(r.t.z) + r.rest }

  ghost predicate Structs(rs: seq<Raw>, size: nat) {
    size >= 16 && forall i :: 0 <= i < |rs| ==> |rs[i].rest| == size - 16
  }

  function ListBytes(rs: seq<Raw>, size: nat): (s: seq<byte>)
    requires Structs(rs, size)
    ensures |s| == |rs| * size
  {
    if rs == [] then [] else RawBytes(rs[0]) + ListBytes(rs[1..], size)
  }

  /** What the decoder can know of the structs: all of a 3D target, a 2D one without z. */
  function Decoded(rs: seq<Raw>, size: nat, max: nat): (ts: seq<Target>)
    ensures |ts| == Min(|rs|, max)
  {
    seq(Min(|rs|, max), i requires 0 <= i < |rs| => if size == SIZE_3D then rs[i].t else rs[i].t.(z := 0))
  }

  lemma {:induction false} StridedList(rs: seq<Raw>, size: nat, max: nat)
    requires Structs(rs, size)
    ensures Strided(ListBytes(rs, size), size, max) == Decoded(rs, size, max)
    decreases |rs|
  {
    if rs == [] || max == 0 {
    } else {
      StridedList(rs[1..], size, max - 1);
      StridedCons(rs[0], ListBytes(rs[1..], size), size, max);
      DecodedCons(rs, size, max);
    }
  }

  lemma {:induction false} StridedCons(r: Raw, rest: seq<byte>, size: nat, max: nat)
    requires size >= 16 && |r.rest| == size - 16 && max > 0
    ensures Strided(RawBytes(r) + rest, size, max)
         == [if size == SIZE_3D then r.t else r.t.(z := 0)] + Strided(rest, size, max - 1)
  {
    assert (RawBytes(r) + rest)[size..] == rest;
    TargetHead(r, rest, size);
  }

  lemma DecodedCons(rs: seq<Raw>, size: nat, max: nat)
    requires rs != [] && max > 0
    ensures Decoded(rs, size, max)
         == [if size == SIZE_3D then rs[0].t else rs[0].t.(z := 0)] + Decoded(rs[1..], size, max - 1)
  {}

  lemma {:induction false} TargetHead(r: Raw, rest: seq<byte>, size: nat)
    ensures FirstTarget(RawBytes(r) + rest, size) == if size == SIZE_3D then r.t else r.t.(z := 0)
  {
    var (s, b) := (RawBytes(r) + rest, RawBytes(r));
    assert b[0..4] == Le32(r.t.tid) && b[4..8] == Le32(r.t.x);
    assert b[8..12] == Le32(r.t.y) && b[12..16] == Le32(r.t.z);
    Rd32Le32(b, 0, r.t.tid);
    Rd32Le32(b, 4, r.t.x);
    Rd32Le32(b, 8, r.t.y);
    Rd32Le32(b, 12, r.t.z);
    assert s[..16] == b[..16];
    HeadLocal(s, b, size);
  }

  lemma HeadLocal(s: seq<byte>, b: seq<byte>, size: nat)
    requires |s| >= 16 && |b| >= 16 && s[..16] == b[..16]
    ensures FirstTarget(s, size) == FirstTarget(b, size)
  {}

  /** The length of n 2D structs is taken for that of 3D ones exactly when 28 divides n: the
      shortest such list is 2128 bytes, more than a frame can carry. */
  lemma {:induction false} SizeUnambiguous(n: nat)
    requires n > 0
    ensures TargetSize(n * 112) == SIZE_3D
    ensures TargetSize(n * 76) == SIZE_2D <==> n % 28 != 0
    ensures n * 76 <= MAX_FRAME - HDR_LEN - 8 ==> TargetSize(n * 76) == SIZE_2D
  {
    Residue28(n / 28, n % 28);
    assert 28 * (n / 28) + n % 28 == n;
  }

  lemma {:induction false} Residue28(q: nat, r: nat)
    requires r < 28
    ensures (28 * q + r) * 76 % 112 == 0 <==> r == 0
  {
    var x := (28 * q + r) * 76;
    var k := x / 112;
    assert x == 112 * (19 * q) + 76 * r;
    if x % 112 == 0 {
      assert 19 * r == 28 * (k - 19 * q);
      assert r == 28 * (3 * (k - 19 * q) - 2 * r);
    }
  }

  /** Decoding a list undoes its encoding, up to the first max targets: every 3D list, and every
      2D list whose count 28 does not divide. */
  lemma {:induction false} TargetsRoundTrip(rs: seq<Raw>, size: nat, max: nat)
    requires size == SIZE_3D || (size == SIZE_2D && |rs| % 28 != 0)
    requires Structs(rs, size)
    ensures DecodeTargets(ListBytes(rs, size), max) == Decoded(rs, size, max)
  {
    if rs != [] { SizeUnambiguous(|rs|); }
    assert |ListBytes(rs, size)| == if size == SIZE_3D then |rs| * 112 else |rs| * 76;
    StridedList(rs, size, max);
  }

  // ---------------------------------------------------------------- presence zones

  function Shift2(z: nat): nat
    requires z < 4
  {
    [1, 4, 16, 64][z]
  }

  /** Two bits a zone, from the low end; zones past the payload read as none. */
  function ZoneAt(p: seq<byte>, z: nat): byte {
    if 1 + z / 4 < |p| then p[1 + z / 4] / Shift2(z % 4) % 4 else 0
  }

  function DecodeZones(p: seq<byte>, max: nat): (zs: seq<byte>)
    ensures |zs| <= max
  {
    if |p| < 2 then [] else seq(Min(p[0], max), z requires 0 <= z => ZoneAt(p, z))
  }

  /** tlv_presence; the payload is read only. */
  method Presence(p: seq<byte>, out: array<byte>, max: nat) returns (n: nat)
    requires max <= out.Length
    modifies out
    ensures n <= max && out[..n] == DecodeZones(p, max)
  {
    if |p| < 2 { return 0; }
    n := p[0];
    if n > max { n := max; }
    for z := 0 to n
      invariant forall i :: 0 <= i < z ==> out[i] == ZoneAt(p, i)
    {
      var byteIdx := 1 + z / 4;
      out[z] := if byteIdx < |p| then p[byteIdx] / Shift2(z % 4) % 4 else 0;
    }
  }

  function StateAt(zs: seq<byte>, z: nat): nat { if z < |zs| then zs[z] % 4 else 0 }

  function ZonesBytes(zs: seq<byte>): (p: seq<byte>)
    requires |zs| < 0x100
    ensures |p| == 1 + (|zs| + 3) / 4
  {
    [|zs| as byte] + seq((|zs| + 3) / 4, i requires 0 <= i =>
      (StateAt(zs, 4 * i) + 4 * StateAt(zs, 4 * i + 1) + 16 * StateAt(zs, 4 * i + 2)
        + 64 * StateAt(zs, 4 * i + 3)) as byte)
  }

  /** Decoding undoes the firmware's packing of zone states, up to the first max zones. */
  lemma {:induction false} ZonesRoundTrip(zs: seq<byte>, max: nat)
    requires |zs| < 0x100 && forall i :: 0 <= i < |zs| ==> zs[i] < 4
    ensures DecodeZones(ZonesBytes(zs), max) == zs[..Min(|zs|, max)]
  {
    forall z: nat | z < |zs| ensures ZoneAt(ZonesBytes(zs), z) == zs[z] {
      ZonePacked(zs, z);
    }
    ZonesRead(ZonesBytes(zs), zs, max);
  }

  lemma ZonesRead(p: seq<byte>, zs: seq<byte>, max: nat)
    requires p != [] && p[0] == |zs| && (zs != [] ==> |p| >= 2)
    requires forall z: nat :: z < |zs| ==> ZoneAt(p, z) == zs[z]
    ensures DecodeZones(p, max) == zs[..Min(|zs|, max)]
  {}

  lemma {:induction false} ZonePacked(zs: seq<byte>, z: nat)
    requires z < |zs| < 0x100
    ensures ZoneAt(ZonesBytes(zs), z) == StateAt(zs, z)
  {
    var (i, j) := (z / 4, z % 4);
    assert z == 4 * i + j && i < (|zs| + 3) / 4;
    PackedAt(zs, i);
    Digit(StateAt(zs, 4 * i), StateAt(zs, 4 * i + 1), StateAt(zs, 4 * i + 2), StateAt(zs, 4 * i + 3));
    PickDigit(ZonesBytes(zs)[1 + i], j);
  }

  lemma PackedAt(zs: seq<byte>, i: nat)
    requires i < (|zs| + 3) / 4 && |zs| < 0x100
    ensures ZonesBytes(zs)[1 + i] as int
         == StateAt(zs, 4 * i) + 4 * StateAt(zs, 4 * i + 1) + 16 * StateAt(zs, 4 * i + 2) + 64 * StateAt(zs, 4 * i + 3)
  {}

  lemma PickDigit(x: byte, j: nat)
    requires j < 4
    ensures x / Shift2(j) % 4
         == if j == 0 then x % 4 else if j == 1 then x / 4 % 4 else if j == 2 then x / 16 % 4 else x / 64 % 4
  {}

  lemma {:induction false} Digit(a: nat, b: nat, c: nat, d: nat)
    requires a < 4 && b < 4 && c < 4 && d < 4
    ensures var x := a + 4 * b + 16 * c + 64 * d;
            x < 256 && x % 4 == a && x / 4 % 4 == b && x / 16 % 4 == c && x / 64 % 4 == d
  {
    var x := a + 4 * b + 16 * c + 64 * d;
    assert x / 4 == b + 4 * c + 16 * d;
    assert x / 16 == c + 4 * d;
    assert x / 64 == d;
  }

  // ---------------------------------------------------------------- a frame's verdict

  const MAX_TARGETS: nat := 20
  const MAX_ZONES: nat := 8

  /** How many people on_frame counts in a frame, and whether a target list said so. */
  datatype Verdict = Verdict(n: nat, tracker: bool)

  function Payload(f: seq<byte>, kind: u32): Option<seq<byte>>
    requires WellFormed(f)
  {
    var e := FirstOf(Walk(f, HDR_LEN, |f|), kind);
    if e.None? then None
    else
      InsideFrame(f, HDR_LEN);
      Some(f[e.value.at..e.value.at + e.value.len])
  }

  lemma {:induction false} InsideFrame(f: seq<byte>, off: nat)
    ensures forall e :: e in Walk(f, off, |f|) ==> e.at + e.len <= |f|
    decreases |f| - off
  {
    if off + 8 > |f| || off + 8 + Rd32(f, off + 4) as nat > |f| {
    } else {
      InsideFrame(f, off + 8 + Rd32(f, off + 4));
    }
  }

  function Judge(f: seq<byte>): (v: Verdict)
    requires WellFormed(f)
    ensures v.n <= MAX_TARGETS && (!v.tracker ==> v.n <= 1)
  {
    var targets := Payload(f, TARGET_LIST);
    if targets.Some? then Verdict(|DecodeTargets(targets.value, MAX_TARGETS)|, true)
    else
      var presence := Payload(f, ENHANCED_PRESENCE);
      var occupied := presence.Some? && exists z :: z in DecodeZones(presence.value, MAX_ZONES) && z != 0;
      Verdict(if occupied then 1 else 0, false)
  }

  // ---------------------------------------------------------------- what the verdict means

  /** What a built frame's payload of a kind is: that of its first such TLV. */
  lemma {:induction false} PayloadBuilt(h: Header, ts: seq<Block>, kind: u32)
    requires Sized(ts) && HDR_LEN + |TlvsBytes(ts)| <= MAX_FRAME
    ensures WellFormed(FrameBytes(h, ts))
    ensures match Payload(FrameBytes(h, ts), kind)
            case None => FirstTlv(ts, kind) == None
            case Some(p) => FirstTlv(ts, kind) == Some(Block(kind, p))
  {
    BuiltWellFormed(h, ts);
    FindBuilt(h, ts, kind);
    InsideFrame(FrameBytes(h, ts), HDR_LEN);
  }

  /** A payload is no longer than the frame around it. */
  lemma {:induction false} PayloadFits(ts: seq<Block>, kind: u32)
    requires Sized(ts)
    ensures var b := FirstTlv(ts, kind); b.Some? ==> 8 + |b.value.payload| <= |TlvsBytes(ts)|
    decreases |ts|
  {
    if ts == [] {
    } else {
      TlvsCons(ts);
      if ts[0].kind != kind { PayloadFits(ts[1..], kind); }
    }
  }

  /** A frame with a target list counts its targets, up to twenty: every 3D list and every 2D
      list that a frame can hold. */
  lemma {:induction false} JudgeTargets(h: Header, ts: seq<Block>, rs: seq<Raw>, size: nat)
    requires Sized(ts) && HDR_LEN + |TlvsBytes(ts)| <= MAX_FRAME
    requires (size == 112 || size == 76) && Structs(rs, size)
    requires FirstTlv(ts, 308) == Some(Block(308, ListBytes(rs, size)))
    ensures WellFormed(FrameBytes(h, ts))
    ensures Judge(FrameBytes(h, ts)) == Verdict(if |rs| < 20 then |rs| else 20, true)
  {
    PayloadBuilt(h, ts, 308);
    PayloadFits(ts, 308);
    if rs != [] {
      Unambiguous(|rs|, size);
      TargetsRoundTrip(rs, size, MAX_TARGETS);
    }
  }

  lemma {:induction false} Unambiguous(n: nat, size: nat)
    requires n > 0 && (size == 112 || size == 76) && n * size <= MAX_FRAME - HDR_LEN - 8
    ensures size == SIZE_3D || (size == SIZE_2D && n % 28 != 0)
  {
    SizeUnambiguous(n);
  }

  /** A target list of any other length counts nobody, and still says that the tracker spoke. */
  lemma {:induction false} JudgeOddList(h: Header, ts: seq<Block>, p: seq<byte>)
    requires Sized(ts) && HDR_LEN + |TlvsBytes(ts)| <= MAX_FRAME
    requires FirstTlv(ts, 308) == Some(Block(308, p)) && |p| % 112 != 0 && |p| % 76 != 0
    ensures WellFormed(FrameBytes(h, ts)) && Judge(FrameBytes(h, ts)) == Verdict(0, true)
  {
    PayloadBuilt(h, ts, 308);
  }

  /** Without a target list, occupancy is a floor: one if any of the first eight zones is
      occupied, else zero. */
  lemma {:induction false} JudgeZones(h: Header, ts: seq<Block>, zs: seq<byte>)
    requires Sized(ts) && HDR_LEN + |TlvsBytes(ts)| <= MAX_FRAME
    requires |zs| < 0x100 && forall i :: 0 <= i < |zs| ==> zs[i] < 4
    requires FirstTlv(ts, 308) == None && FirstTlv(ts, 315) == Some(Block(315, ZonesBytes(zs)))
    ensures WellFormed(FrameBytes(h, ts))
    ensures var v := Judge(FrameBytes(h, ts));
            && !v.tracker && v.n == (if exists i :: 0 <= i < |zs| && i < 8 && zs[i] != 0 then 1 else 0)
  {
    PayloadBuilt(h, ts, 308);
    PayloadBuilt(h, ts, 315);
    ZonesRoundTrip(zs, MAX_ZONES);
    var seen := zs[..Min(|zs|, MAX_ZONES)];
    if z :| z in seen && z != 0 {
      var i :| 0 <= i < |seen| && seen[i] == z;
      assert zs[i] != 0;
    }
    if i :| 0 <= i < |zs| && i < 8 && zs[i] != 0 { assert seen[i] in seen; }
  }

  /** With neither, the frame says that nobody is there. */
  lemma {:induction false} JudgeNothing(h: Header, ts: seq<Block>)
    requires Sized(ts) && HDR_LEN + |TlvsBytes(ts)| <= MAX_FRAME
    requires FirstTlv(ts, 308) == None && FirstTlv(ts, 315) == None
    ensures WellFormed(FrameBytes(h, ts)) && Judge(FrameBytes(h, ts)) == Verdict(0, false)
  {
    PayloadBuilt(h, ts, 308);
    PayloadBuilt(h, ts, 315);
  }
}
