/** One record per window (window_flush in src/main.c). */
module WindowFlush {
  import opened Bytes
  import opened Frame
  import Radar
  import Sen5x
  import Store

  /** The record handed to store_append, which fills in seq and ts. */
  function Flush(w: Radar.Window, aq: Sen5x.Air): Record {
    Record(0, 0, w.headcount, w.occS, w.dwellS, Flags(w, aq), 100, aq.pm25, aq.pm10, aq.temp, aq.rh, aq.voc)
  }

  /** The flags start at zero and each bit is set at most once. */
  function Flags(w: Radar.Window, aq: Sen5x.Air): byte {
    (if w.alive then 0 else SENSOR_FAULT as int) + (if aq.alive then 0 else AQ_FAULT as int)
      + (if w.tracker then 0 else NO_TRACKER as int) + RTC_UNSET as int
  }

  /** The bits do not mask each other: 0 for a dead radar, 5 for no tracker, 6 for dead air, and
      2, no time source, always; no other. */
  lemma FlagBits(w: Radar.Window, aq: Sen5x.Air)
    ensures var f := Flags(w, aq);
            && (f % 2 == 1 <==> !w.alive) && f / 2 % 2 == 0 && f / 4 % 2 == 1 && f / 8 % 4 == 0
            && (f / 32 % 2 == 1 <==> !w.tracker) && (f / 64 % 2 == 1 <==> !aq.alive) && f < 128
  {}

  /** The air window handed over after the samples ws and a status read. */
  ghost function Air(ws: seq<Sen5x.Sample>, status: Option<seq<byte>>): Sen5x.Air {
    var a := Sen5x.After(ws);
    a.(alive := a.alive && !Sen5x.Killed(status))
  }

  /** Over every trace and all samples of a window: a record flagged NO_TRACKER carries a floor of
      0 or 1 and one not so flagged had a target list; one flagged SENSOR_FAULT claims nobody, no
      occupancy and no dwell; the two sensors' faults are flagged independently. */
  lemma {:induction false} FlagsTell(tr: Radar.Trace, now: nat, ws: seq<Sen5x.Sample>, status: Option<seq<byte>>)
    requires Radar.Real(tr) && forall k :: 0 <= k < |tr| ==> tr[k].at <= now
    ensures var (rec, vs) := (Flush(Radar.Report(Radar.After(tr), now), Air(ws, status)), Radar.Current(tr));
            && (rec.flags / 32 % 2 == 1 <==> !Radar.AnyTracker(vs))
            && (rec.flags / 32 % 2 == 1 ==> rec.headcount <= 1)
            && (rec.flags % 2 == 1 <==> vs == [])
            && (rec.flags % 2 == 1 ==> rec.headcount == 0 && rec.occS == 0 && rec.dwellS == 0)
            && (rec.flags / 64 % 2 == 1 <==> ws == [] || Sen5x.Killed(status))
            && rec.flags / 4 % 2 == 1 && rec.flags / 2 % 2 == 0 && rec.flags / 8 % 4 == 0 && rec.flags < 128
  {
    FlagBits(Radar.Report(Radar.After(tr), now), Air(ws, status));
    Radar.TakenWindow(tr, now);
    Radar.TakenDwell(tr, now, -1);
    Sen5x.WindowOfSamples(ws);
  }

  /** And each of its fields, from the frames since the last take and the samples of the window. */
  lemma {:induction false} FieldsTell(tr: Radar.Trace, now: nat, i: int, ws: seq<Sen5x.Sample>,
                                     status: Option<seq<byte>>)
    requires Radar.Real(tr) && forall k :: 0 <= k < |tr| ==> tr[k].at <= now
    ensures var (rec, vs) := (Flush(Radar.Report(Radar.After(tr), now), Air(ws, status)), Radar.Current(tr));
            && rec.batt == 100 && Radar.IsMax(rec.headcount, vs)
            && rec.occS as int == (if vs == [] then 0 else Radar.Occupied(vs) * 30 / |vs|)
            && (vs != [] && Radar.Began(tr, i) ==> rec.dwellS == Radar.Saturated((now - tr[i].at) / 1000))
            && (vs == [] || (forall h :: !Radar.Running(tr, h)) ==> rec.dwellS == 0)
            && AirTells(rec, ws)
  {
    Radar.TakenWindow(tr, now);
    Radar.TakenDwell(tr, now, i);
    Sen5x.WindowOfSamples(ws);
  }

  ghost predicate AirTells(rec: Record, ws: seq<Sen5x.Sample>) {
    && Sen5x.IsPeak(rec.pm25, Sen5x.Column(ws, (w: Sen5x.Sample) => w[1]))
    && Sen5x.IsPeak(rec.pm10, Sen5x.Column(ws, (w: Sen5x.Sample) => w[3]))
    && (match Sen5x.LastKnown(Sen5x.Column(ws, (w: Sen5x.Sample) => w[5]))
        case None => rec.temp == 0x7FFF
        case Some(x) => Sen5x.IsHalf(x, rec.temp))
    && (match Sen5x.LastKnown(Sen5x.Column(ws, (w: Sen5x.Sample) => w[4]))
        case None => rec.rh == 0x7FFF
        case Some(x) => Sen5x.IsSigned(x, rec.rh))
    && (match Sen5x.LastKnown(Sen5x.Column(ws, (w: Sen5x.Sample) => w[6]))
        case None => rec.voc == 0x7FFF
        case Some(x) => Sen5x.IsSigned(x, rec.voc))
  }

  /** window_flush: take both windows, make the record, append it. */
  method FlushWindow(radar: Radar.Accumulator, air: Sen5x.Sensor, store: Store.Store, now: nat,
                     status: Option<seq<byte>>, uptimeMs: nat, recGood: bool, metaGood: bool)
    returns (ok: bool, rec: Record)
    requires radar.occSince <= now && (status.Some? ==> |status.value| == 6)
    requires Store.Now(store.RamNow(), uptimeMs) < 0x1_0000_0000 && store.meta.nextSeq as nat + 1 < 0x1_0000_0000
    modifies radar, air, store
    // both windows start over, whatever becomes of the record
    ensures radar.Value() == Radar.Reset(old(radar.Value())) && air.acc == Sen5x.EMPTY
    ensures var aq := old(air.acc).(alive := old(air.acc).alive && !Sen5x.Killed(status));
            rec == Flush(Radar.Report(old(radar.Value()), now), aq).(seqNo := old(store.meta.nextSeq), ts := rec.ts)
    ensures var ms := 1000 * (rec.ts as int - old(store.bootOffset) as int); ms <= uptimeMs < ms + 1000
    ensures ok == (recGood && metaGood)
    // and what was written is what store_get returns, unless the seq is below the floor
    ensures ok && old(store.floorSeq) <= rec.seqNo ==> Store.Get(store.nvs, store.RamNow(), rec.seqNo) == Some(rec)
    ensures rec.seqNo < old(store.floorSeq) ==> Store.Get(store.nvs, store.RamNow(), rec.seqNo) == None
  {
    var w := radar.WindowTake(now);
    var aq := air.WindowTake(status);
    ok, rec := store.Append(Flush(w, aq), uptimeMs, recGood, metaGood);
    Store.AppendSlides(old(store.nvs), old(store.RamNow()), rec, rec.seqNo);
  }
}
