/** Occupancy windows (on_frame and radar_window_take in src/radar.c) against the trace of all
    frames and takes. */
module Radar {
  import opened Bytes
  import opened Reassembler
  import opened Tlv

  const PERIOD_S: nat := 30

  datatype Acc = Acc(maxCount: byte, frames: u16, occFrames: u16, anyTracker: bool, occSince: nat)

  datatype Window = Window(headcount: byte, occS: byte, dwellS: u16, alive: bool, tracker: bool)

  const ZERO := Acc(0, 0, 0, false, 0)

  function Inc(x: u16): u16 { (x as int + 1) % 0x1_0000 }

  function Note(a: Acc, v: Verdict, now: nat): Acc
    requires v.n < 0x100
  {
    var b := a.(frames := Inc(a.frames), anyTracker := a.anyTracker || v.tracker);
    if v.n > 0 then
      b.(occFrames := Inc(a.occFrames), maxCount := if v.n > a.maxCount then v.n else a.maxCount,
         occSince := if a.occSince == 0 then now else a.occSince)
    else b.(occSince := 0)
  }

  /** Saturated whole seconds since an occupancy began. */
  function Held(since: nat, now: nat): u16 {
    if since == 0 || now < since then 0 else if (now - since) / 1000 > 0xFFFF then 0xFFFF else (now - since) / 1000
  }

  function Since(a: Acc): nat { if a.frames > 0 then a.occSince else 0 }

  function OccS(a: Acc): byte {
    if a.frames > 0 then (a.occFrames * PERIOD_S / a.frames) % 0x100 else 0
  }

  function Report(a: Acc, now: nat): Window {
    Window(a.maxCount, OccS(a), Held(Since(a), now), a.frames > 0, a.anyTracker)
  }

  function Reset(a: Acc): Acc { ZERO.(occSince := Since(a)) }

  class Accumulator {
    var maxCount: byte
    var frames: u16
    var occFrames: u16
    var anyTracker: bool
    var occSince: nat

    function Value(): Acc
      reads this
    {
      Acc(maxCount, frames, occFrames, anyTracker, occSince)
    }

    constructor ()
      ensures Value() == ZERO
    {
      maxCount, frames, occFrames, anyTracker, occSince := 0, 0, 0, false, 0;
    }

    /** tlv_find on a delivered frame held at the start of buf. */
    method PayloadOf(buf: array<byte>, ghost f: seq<byte>, kind: u32) returns (p: Option<seq<byte>>)
      requires buf.Length == MAX_FRAME && |f| <= MAX_FRAME && buf[..|f|] == f && WellFormed(f)
      ensures p == Payload(f, kind)
    {
      PayloadLocal(f, buf[..], kind);
      var at, len := Find(buf, kind);
      if at.None? { return None; }
      return Some(buf[at.value..at.value + len as nat]);
    }

    /** Whether any of the first eight zones is occupied. */
    method AnyZone(p: seq<byte>) returns (occupied: bool)
      ensures occupied <==> exists z :: z in DecodeZones(p, MAX_ZONES) && z != 0
    {
      var zones := new byte[MAX_ZONES](_ => 0);
      var nz := Presence(p, zones, MAX_ZONES);
      ghost var zs := zones[..nz];
      for z := 0 to nz
        invariant forall i :: 0 <= i < z ==> zs[i] == 0
      {
        assert zs[z] == zones[z];
        if zones[z] != 0 {
          assert zs[z] in zs;
          return true;
        }
      }
      return false;
    }

    /** What on_frame reads off a delivered frame. */
    method Count(buf: array<byte>, ghost f: seq<byte>) returns (v: Verdict)
      requires buf.Length == MAX_FRAME && |f| <= MAX_FRAME && buf[..|f|] == f && WellFormed(f)
      ensures v == Judge(f)
    {
      var p := PayloadOf(buf, f, TARGET_LIST);
      if p.Some? {
        var tgt := new Target[MAX_TARGETS](_ => Target(0, 0, 0, 0));
        var n := Targets(p.value, tgt, MAX_TARGETS);
        assert |tgt[..n]| == n;
        return Verdict(n, true);
      }
      p := PayloadOf(buf, f, ENHANCED_PRESENCE);
      if p.None? { return Verdict(0, false); }
      var occupied := AnyZone(p.value);
      return Verdict(if occupied then 1 else 0, false);
    }

    method OnFrame(buf: array<byte>, ghost f: seq<byte>, now: nat)
      requires buf.Length == MAX_FRAME && |f| <= MAX_FRAME && buf[..|f|] == f && WellFormed(f)
      modifies this
      ensures Value() == Note(old(Value()), Judge(f), now)
    {
      var v := Count(buf, f);
      frames := Inc(frames);
      if v.tracker { anyTracker := true; }
      if v.n > 0 {
        occFrames := Inc(occFrames);
        if v.n > maxCount { maxCount := v.n; }
        if occSince == 0 { occSince := now; }
      } else {
        occSince := 0;
      }
    }

    method WindowTake(now: nat) returns (w: Window)
      requires occSince <= now
      modifies this
      ensures w == Report(old(Value()), now) && Value() == Reset(old(Value()))
    {
      var alive := frames > 0;
      var occS: byte := if frames > 0 then (occFrames as int * PERIOD_S / frames as int) % 0x100 else 0;
      if !alive { occSince := 0; }
      var held := if occSince != 0 then (now - occSince) / 1000 else 0;
      w := Window(maxCount, occS, if held > 0xFFFF then 0xFFFF else held, alive, anyTracker);
      maxCount, frames, occFrames, anyTracker := 0, 0, 0, false;
    }
  }

  /** The walk depends on the frame's own bytes only. */
  lemma {:induction false} WalkLocal(f: seq<byte>, g: seq<byte>, off: nat)
    ensures Walk(f + g, off, |f|) == Walk(f, off, |f|)
    decreases |f| - off
  {
    if off + 8 > |f| {
    } else {
      var next := off + 8 + Rd32(f, off + 4) as nat;
      WordLocal(f, g, off);
      WordLocal(f, g, off + 4);
      if next <= |f| { WalkLocal(f, g, next); }
    }
  }

  lemma WordLocal(f: seq<byte>, g: seq<byte>, off: nat)
    requires off + 4 <= |f|
    ensures Rd32(f + g, off) == Rd32(f, off)
  {}

  lemma {:induction false} PayloadLocal(f: seq<byte>, b: seq<byte>, kind: u32)
    requires WellFormed(f) && f <= b
    ensures Rd32(b, 12) == |f| && FirstOf(Walk(b, HDR_LEN, |f|), kind) == FirstOf(Walk(f, HDR_LEN, |f|), kind)
    ensures var e := FirstOf(Walk(f, HDR_LEN, |f|), kind);
            e.Some? ==> e.value.at + e.value.len <= |f|
                        && b[e.value.at..e.value.at + e.value.len] == f[e.value.at..e.value.at + e.value.len]
  {
    assert b == f + b[|f|..];
    WordLocal(f, b[|f|..], 12);
    WalkLocal(f, b[|f|..], HDR_LEN);
    InsideFrame(f, HDR_LEN);
  }

  // ---------------------------------------------------------------- traces

  datatype Event = Frame(v: Verdict, at: nat) | Taken(at: nat)

  type Trace = seq<Event>

  /** The accumulators after a trace. */
  function After(tr: Trace): Acc
    requires forall i :: 0 <= i < |tr| && tr[i].Frame? ==> tr[i].v.n < 0x100
    decreases |tr|
  {
    if tr == [] then ZERO
    else
      var a := After(tr[..|tr| - 1]);
      match tr[|tr| - 1]
      case Frame(v, at) => Note(a, v, at)
      case Taken(at) => Reset(a)
  }

  /** The verdicts since the last take. */
  function Current(tr: Trace): seq<Verdict>
    decreases |tr|
  {
    if tr == [] || tr[|tr| - 1].Taken? then [] else Current(tr[..|tr| - 1]) + [tr[|tr| - 1].v]
  }

  function Occupied(vs: seq<Verdict>): (n: nat)
    ensures n <= |vs|
  {
    if vs == [] then 0 else Occupied(vs[..|vs| - 1]) + if vs[|vs| - 1].n > 0 then 1 else 0
  }

  /** Uptime is positive and does not go back; counts are those on_frame can produce; no window
      holds 65536 frames. */
  ghost predicate Real(tr: Trace) {
    && (forall i :: 0 <= i < |tr| ==> tr[i].at > 0)
    && (forall i, j :: 0 <= i < j < |tr| ==> tr[i].at <= tr[j].at)
    && (forall i :: 0 <= i < |tr| && tr[i].Frame? ==> tr[i].v.n <= MAX_TARGETS && (tr[i].v.tracker || tr[i].v.n <= 1))
    && (forall k :: 0 <= k <= |tr| ==> |Current(tr[..k])| < 0x1_0000)
  }

  lemma {:induction false} RealPrefix(tr: Trace, k: nat)
    requires Real(tr) && k <= |tr|
    ensures Real(tr[..k])
  {
    assert forall j :: 0 <= j <= k ==> tr[..k][..j] == tr[..j];
  }

  ghost predicate IsMax(m: nat, vs: seq<Verdict>) {
    && (forall i :: 0 <= i < |vs| ==> vs[i].n <= m)
    && (m == 0 || exists i :: 0 <= i < |vs| && vs[i].n == m)
  }

  ghost predicate AnyTracker(vs: seq<Verdict>) { exists i :: 0 <= i < |vs| && vs[i].tracker }

  /** The per-window accumulators summarise the frames since the last take. */
  ghost predicate Summary(a: Acc, vs: seq<Verdict>) {
    && a.frames == |vs| && a.occFrames == Occupied(vs) && IsMax(a.maxCount, vs)
    && (a.anyTracker <==> AnyTracker(vs)) && (!a.anyTracker ==> a.maxCount <= 1)
  }

  lemma {:induction false} WindowOfTrace(tr: Trace)
    requires Real(tr)
    ensures Summary(After(tr), Current(tr))
    decreases |tr|
  {
    if tr == [] {
    } else {
      var k := |tr| - 1;
      RealPrefix(tr, k);
      WindowOfTrace(tr[..k]);
      assert tr[..|tr|] == tr;
      if tr[k].Frame? { FrameNoted(After(tr[..k]), Current(tr[..k]), tr[k].v, tr[k].at); }
    }
  }

  lemma FrameNoted(a: Acc, vs: seq<Verdict>, v: Verdict, at: nat)
    requires v.n < 0x100 && (v.tracker || v.n <= 1) && |vs| + 1 < 0x1_0000 && Summary(a, vs)
    ensures Summary(Note(a, v, at), vs + [v])
  {}

  // ---------------------------------------------------------------- the dwell clock

  /** The room was seen empty, or a window passed without any frame. */
  ghost predicate Clears(tr: Trace, j: int) {
    0 <= j < |tr| && if tr[j].Frame? then tr[j].v.n == 0 else Current(tr[..j]) == []
  }

  ghost predicate Occupies(tr: Trace, i: int) { 0 <= i < |tr| && tr[i].Frame? && tr[i].v.n > 0 }

  /** Event i is occupied and nothing has cleared the clock since. */
  ghost predicate Running(tr: Trace, i: int) {
    Occupies(tr, i) && forall j :: i < j < |tr| ==> !Clears(tr, j)
  }

  /** Event i started the occupancy that is still running: no earlier one is. */
  ghost predicate Began(tr: Trace, i: int) { Running(tr, i) && forall h :: h < i ==> !Running(tr, h) }

  lemma {:induction false} RunningSnoc(tr: Trace, i: int)
    requires tr != []
    ensures var k := |tr| - 1;
            Running(tr, i) <==> if i == k then Occupies(tr, k) else Running(tr[..k], i) && !Clears(tr, k)
  {
    var k := |tr| - 1;
    assert forall j :: 0 <= j < k ==> tr[..k][..j] == tr[..j];
    assert forall j :: 0 <= j < k ==> (Clears(tr[..k], j) <==> Clears(tr, j));
  }

  /** The clock holds the time of the event that began the running occupancy, and is stopped
      exactly when there is none. */
  lemma {:induction false} ClockOfTrace(tr: Trace) returns (i: int)
    requires Real(tr)
    ensures After(tr).occSince == 0 <==> i < 0
    ensures i < 0 ==> forall h :: !Running(tr, h)
    ensures i >= 0 ==> Began(tr, i) && After(tr).occSince == tr[i].at
    decreases |tr|
  {
    if tr == [] { return -1; }
    var k := |tr| - 1;
    RealPrefix(tr, k);
    i := ClockOfTrace(tr[..k]);
    WindowOfTrace(tr[..k]);
    forall h ensures Running(tr, h) <==> if h == k then Occupies(tr, k) else Running(tr[..k], h) && !Clears(tr, k) {
      RunningSnoc(tr, h);
    }
    if Clears(tr, k) { return -1; }
    if i < 0 && Occupies(tr, k) { return k; }
  }

  /** Every window taken from the device is alive exactly if it had frames; its occ_s is the
      floor of 30 times the occupied share, at most 30; its headcount the maximum over its
      frames, and no more than 1 if no target list came. */
  lemma {:induction false} TakenWindow(tr: Trace, now: nat)
    requires Real(tr)
    ensures var (w, vs) := (Report(After(tr), now), Current(tr));
            && (w.alive <==> vs != []) && (w.tracker <==> AnyTracker(vs))
            && (vs != [] ==> w.occS == Occupied(vs) * 30 / |vs| <= 30)
            && (vs == [] ==> w.occS == 0)
            && IsMax(w.headcount, vs) && (!w.tracker ==> w.headcount <= 1)
  {
    WindowOfTrace(tr);
    var (a, k, n) := (After(tr), Occupied(Current(tr)), |Current(tr)|);
    if n > 0 {
      Share(k, n);
      assert OccS(a) == k * PERIOD_S / n;
    }
  }

  /** Its dwell is the saturated whole seconds since the occupancy began that no empty frame and
      no frameless window has ended, across takes; 0 if there is none, or the window is dead. */
  lemma {:induction false} TakenDwell(tr: Trace, now: nat, i: int)
    requires Real(tr) && forall k :: 0 <= k < |tr| ==> tr[k].at <= now
    ensures var (d, vs) := (Report(After(tr), now).dwellS, Current(tr));
            && (vs != [] && Began(tr, i) ==>
                var s := (now - tr[i].at) / 1000; d == Saturated(s) == if s > 65535 then 65535 else s)
            && (vs == [] || (forall h :: !Running(tr, h)) ==> d == 0)
  {
    WindowOfTrace(tr);
    var b := ClockOfTrace(tr);
    if b >= 0 { BeganRuns(tr, b); }
    if Began(tr, i) {
      BeganRuns(tr, i);
      BeganOnce(tr, i, b);
      HeldSince(tr[i].at, now);
    }
  }

  lemma HeldSince(since: nat, now: nat)
    requires 0 < since <= now
    ensures Held(since, now) == Saturated((now - since) / 1000)
  {}

  lemma BeganRuns(tr: Trace, i: int)
    requires Began(tr, i)
    ensures Running(tr, i) && 0 <= i < |tr|
  {}

  lemma BeganOnce(tr: Trace, i: int, j: int)
    requires Began(tr, i) && Began(tr, j)
    ensures i == j
  {}

  function Saturated(s: int): int { if s > 0xFFFF then 0xFFFF else s }

  lemma Share(k: nat, n: nat)
    requires k <= n && n > 0
    ensures 0 <= k * PERIOD_S / n <= PERIOD_S && k * PERIOD_S / n % 0x100 == k * PERIOD_S / n
  {}

}
