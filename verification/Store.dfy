/** The flash ring (src/store.c): one NVS entry per record in slot 0x100 + seq % 2880, and a
    meta entry that commits it. */
module Store {
  import opened Bytes
  import opened Frame

  const CAPACITY: nat := 2880
  const FORMAT: u16 := 24
  const ID_META: nat := 1
  const ID_FORMAT: nat := 2
  const ID_FLOOR: nat := 3
  const ID_REC0: nat := 0x100

  datatype Meta = Meta(nextSeq: u32, baseSec: u32)

  /** What one NVS id holds; an entry of any other size than asked for reads as an error. */
  datatype Entry =
    | MetaEntry(meta: Meta)
    | FormatEntry(size: u16)
    | FloorEntry(floor: u32)
    | RecordEntry(rec: Record)
    | ForeignEntry

  /** Flash as NVS presents it: single writes are atomic, reads return the last one. */
  type Nvs = map<nat, Entry>

  /** The file-level variables of store.c. */
  datatype Ram = Ram(meta: Meta, bootOffset: u32, floor: u32)

  // ---------------------------------------------------------------- reading

  function ReadMeta(nvs: Nvs): Meta {
    if ID_META in nvs && nvs[ID_META].MetaEntry? then nvs[ID_META].meta else Meta(0, 0)
  }

  function ReadFormat(nvs: Nvs): u16 {
    if ID_FORMAT in nvs && nvs[ID_FORMAT].FormatEntry? then nvs[ID_FORMAT].size else 0
  }

  function ReadFloor(nvs: Nvs): u32 {
    if ID_FLOOR in nvs && nvs[ID_FLOOR].FloorEntry? then nvs[ID_FLOOR].floor else 0
  }

  function Slot(s: nat): nat { ID_REC0 + s % CAPACITY }

  function Fetch(nvs: Nvs, s: nat): Option<Record> {
    if Slot(s) in nvs && nvs[Slot(s)].RecordEntry? then Some(nvs[Slot(s)].rec) else None
  }

  /** s is no older than the floor and than the last CAPACITY appends. */
  predicate Recent(ram: Ram, s: u32) { ram.floor <= s && ram.meta.nextSeq as nat <= s as nat + CAPACITY }

  /** The least recent seq. */
  function Oldest(ram: Ram): (s: u32)
    ensures Recent(ram, s) && forall t: u32 :: Recent(ram, t) ==> s <= t
  {
    var ring := if ram.meta.nextSeq > CAPACITY then ram.meta.nextSeq - CAPACITY else 0;
    if ram.floor > ring then ram.floor else ring
  }

  /** store_get: None for -ENOENT. */
  function Get(nvs: Nvs, ram: Ram, s: u32): Option<Record> {
    if s >= ram.meta.nextSeq || s < Oldest(ram) then None
    else
      var r := Fetch(nvs, s);
      if r.Some? && r.value.seqNo == s then r else None
  }

  /** store_now, up to the 2^32 second limit that callers must keep. */
  function Now(ram: Ram, uptimeMs: nat): nat { ram.bootOffset as nat + uptimeMs / 1000 }

  // ---------------------------------------------------------------- the writes of one append

  function Stamp(ram: Ram, uptimeMs: nat, rec: Record): Record
    requires Now(ram, uptimeMs) < 0x1_0000_0000
  {
    rec.(seqNo := ram.meta.nextSeq, ts := Now(ram, uptimeMs))
  }

  /** Stamping sets the seq and the clock, in whole seconds, and nothing else. */
  lemma StampSets(ram: Ram, uptimeMs: nat, rec: Record)
    requires Now(ram, uptimeMs) < 0x1_0000_0000
    ensures var out := Stamp(ram, uptimeMs, rec);
            && out.seqNo == ram.meta.nextSeq && out.(seqNo := rec.seqNo, ts := rec.ts) == rec
            && var ms := 1000 * (out.ts as int - ram.bootOffset as int); ms <= uptimeMs < ms + 1000
  {}

  function PutRecord(nvs: Nvs, rec: Record): Nvs { nvs[Slot(rec.seqNo) := RecordEntry(rec)] }

  function Bump(ram: Ram, rec: Record): Ram
    requires ram.meta.nextSeq as nat + 1 < 0x1_0000_0000
  {
    ram.(meta := Meta(ram.meta.nextSeq + 1, rec.ts))
  }

  function PutMeta(nvs: Nvs, ram: Ram): Nvs { nvs[ID_META := MetaEntry(ram.meta)] }

  // ---------------------------------------------------------------- boot

  /** The flash after the first `done` of the four operations of a format change: nvs_clear and
      the writes of format, floor and meta. */
  function Migrated(nvs: Nvs, done: nat): Nvs {
    var m := ReadMeta(nvs);
    if done == 0 then nvs
    else if done == 1 then map[]
    else if done == 2 then map[ID_FORMAT := FormatEntry(FORMAT)]
    else if done == 3 then map[ID_FORMAT := FormatEntry(FORMAT), ID_FLOOR := FloorEntry(m.nextSeq)]
    else map[ID_FORMAT := FormatEntry(FORMAT), ID_FLOOR := FloorEntry(m.nextSeq), ID_META := MetaEntry(m)]
  }

  function BootFlash(nvs: Nvs): Nvs {
    if ReadFormat(nvs) == FORMAT then nvs else Migrated(nvs, 4)
  }

  function BootRam(nvs: Nvs): Ram {
    var m := ReadMeta(nvs);
    Ram(m, m.baseSec, if ReadFormat(nvs) == FORMAT then ReadFloor(nvs) else m.nextSeq)
  }

  /** A completed format change keeps the sequence number and the clock, forgets every record,
      and leaves nothing that a second boot would change. */
  lemma MigrationKeepsSeq(nvs: Nvs, s: u32)
    requires ReadFormat(nvs) != FORMAT
    ensures BootRam(nvs).meta == ReadMeta(nvs) == ReadMeta(BootFlash(nvs))
    ensures Oldest(BootRam(nvs)) == BootRam(nvs).meta.nextSeq
    ensures Get(BootFlash(nvs), BootRam(nvs), s) == None
    ensures BootFlash(BootFlash(nvs)) == BootFlash(nvs) && BootRam(BootFlash(nvs)) == BootRam(nvs)
  {}

  /** Power lost inside a format change: the next boot resumes the sequence exactly when the
      cut fell before the erase or after the last write, or there was no sequence to lose. */
  lemma MigrationCut(nvs: Nvs, done: nat)
    requires ReadFormat(nvs) != FORMAT && done <= 4
    ensures BootRam(Migrated(nvs, done)).meta.nextSeq == ReadMeta(nvs).nextSeq
       <==> done == 0 || done == 4 || ReadMeta(nvs).nextSeq == 0
  {}

  /** The boot after a format change cut anywhere: no record, and the old counter and clock, the
      old counter as floor, or neither. */
  lemma {:induction false} BootAfterCut(nvs: Nvs, done: nat)
    requires ReadFormat(nvs) != FORMAT && done <= 4
    ensures var (was, flash, ram) := (ReadMeta(nvs), BootFlash(Migrated(nvs, done)), BootRam(Migrated(nvs, done)));
            && ReadFormat(flash) == FORMAT && ReadFloor(flash) == ram.floor && ReadMeta(flash) == ram.meta
            && ram.floor == (if done == 1 || done == 2 then 0 else was.nextSeq)
            && ram.meta == (if 1 <= done <= 3 then Meta(0, 0) else was) && ram.bootOffset == ram.meta.baseSec
            && forall id :: id in flash ==> !flash[id].RecordEntry?
  {
    var cut := Migrated(nvs, done);
    if done <= 1 {
      assert BootFlash(cut) == Migrated(cut, 4);
    } else {
      assert BootFlash(cut) == cut;
    }
  }

  /** A cut between the floor and the meta write leaves the floor above the counter. With that
      floor in RAM, whatever the flash and the counter have become, an append can be read back
      exactly when its seq is not below the counter that was lost. */
  lemma FloorAboveNext(nvs: Nvs, flash: Nvs, ram: Ram, rec: Record)
    requires ReadFormat(nvs) != FORMAT && ram.floor == BootRam(Migrated(nvs, 3)).floor
    requires rec.seqNo == ram.meta.nextSeq && rec.seqNo as nat + 1 < 0x1_0000_0000
    ensures BootRam(Migrated(nvs, 3)) == Ram(Meta(0, 0), 0, ReadMeta(nvs).nextSeq)
    ensures Get(PutRecord(flash, rec), Bump(ram, rec), rec.seqNo)
         == if rec.seqNo < ReadMeta(nvs).nextSeq then None else Some(rec)
  {}

  /** What one append changes for the reader of any seq, in any state of flash and RAM: the new
      record can be read unless it is below the floor, the seq a whole ring older is gone, and
      every other answer is what it was. */
  lemma AppendSlides(nvs: Nvs, ram: Ram, rec: Record, s: u32)
    requires rec.seqNo == ram.meta.nextSeq && rec.seqNo as nat + 1 < 0x1_0000_0000
    ensures Get(PutMeta(PutRecord(nvs, rec), Bump(ram, rec)), Bump(ram, rec), s)
         == if s == rec.seqNo then (if ram.floor <= s then Some(rec) else None)
            else if s as nat + 2880 == rec.seqNo as nat then None
            else Get(nvs, ram, s)
  {}

  class Store {
    var nvs: Nvs
    var meta: Meta
    var bootOffset: u32
    var floorSeq: u32

    function RamNow(): Ram
      reads this
    {
      Ram(meta, bootOffset, floorSeq)
    }

    constructor (flash: Nvs)
      ensures nvs == flash && RamNow() == Ram(Meta(0, 0), 0, 0)
    {
      nvs := flash;
      meta, bootOffset, floorSeq := Meta(0, 0), 0, 0;
    }

    /** store_init at power-up. The first `good` flash operations of a format change succeed; a
        shorter run than four is a write error, or a power cut at that point. */
    method Init(good: nat) returns (ok: bool)
      requires floorSeq == 0
      modifies this
      ensures ok <==> ReadFormat(old(nvs)) == 24 || good >= 4
      ensures ok ==> nvs == BootFlash(old(nvs)) && RamNow() == BootRam(old(nvs))
      ensures !ok ==> nvs == Migrated(old(nvs), good)
                      && RamNow() == Ram(ReadMeta(old(nvs)), old(bootOffset),
                                         if good < 1 then 0 else ReadMeta(old(nvs)).nextSeq)
      // a format change leaves exactly these entries, in this order
      ensures ReadFormat(old(nvs)) != 24 && good >= 1 ==>
                var (format, floor) := (FormatEntry(24), FloorEntry(ReadMeta(old(nvs)).nextSeq));
                nvs == if good == 1 then map[]
                       else if good == 2 then map[2 := format]
                       else if good == 3 then map[2 := format, 3 := floor]
                       else map[2 := format, 3 := floor, 1 := MetaEntry(ReadMeta(old(nvs)))]
      // and another boot leaves everything as it is; both resume counter and clock
      ensures ReadFormat(old(nvs)) == 24 || good < 1 ==> nvs == old(nvs)
      ensures meta == ReadMeta(old(nvs)) && (ok ==> bootOffset == meta.baseSec)
    {
      meta := ReadMeta(nvs);
      var format := ReadFormat(nvs);
      if format != FORMAT {
        if good < 1 { return false; }
        nvs := map[];
        floorSeq := meta.nextSeq;
        if good < 2 { return false; }
        nvs := nvs[ID_FORMAT := FormatEntry(FORMAT)];
        if good < 3 { return false; }
        nvs := nvs[ID_FLOOR := FloorEntry(floorSeq)];
        if good < 4 { return false; }
        nvs := nvs[ID_META := MetaEntry(meta)];
      } else if ID_FLOOR in nvs && nvs[ID_FLOOR].FloorEntry? {
        floorSeq := nvs[ID_FLOOR].floor;
      }
      bootOffset := meta.baseSec;
      return true;
    }

    /** store_oldest_seq: the least seq neither below the floor nor a whole ring behind. */
    method OldestSeq() returns (s: u32)
      ensures floorSeq <= s && meta.nextSeq as nat <= s as nat + 2880
      ensures s == floorSeq || (s > 0 && meta.nextSeq as nat > s as nat - 1 + 2880)
      ensures forall t: u32 :: Recent(RamNow(), t) ==> s <= t
    {
      var ring := if meta.nextSeq > CAPACITY then meta.nextSeq - CAPACITY else 0;
      s := if floorSeq > ring then floorSeq else ring;
    }

    /** store_append; recGood and metaGood say whether each flash write succeeds. */
    method Append(rec: Record, uptimeMs: nat, recGood: bool, metaGood: bool) returns (ok: bool, out: Record)
      requires Now(RamNow(), uptimeMs) < 0x1_0000_0000 && meta.nextSeq as nat + 1 < 0x1_0000_0000
      modifies this
      // the next seq, the whole seconds of uptime on top of the boot's offset, the rest as given
      ensures out.seqNo == old(meta.nextSeq) && out.(seqNo := rec.seqNo, ts := rec.ts) == rec
      ensures var ms := 1000 * (out.ts as int - old(bootOffset) as int); ms <= uptimeMs < ms + 1000
      ensures ok == (recGood && metaGood)
      // the record's slot is written, then the meta entry; RAM moves on in between
      ensures var next := Meta(old(meta.nextSeq) + 1, out.ts);
              && (!recGood ==> nvs == old(nvs) && RamNow() == old(RamNow()))
              && (recGood ==> RamNow() == Ram(next, old(bootOffset), old(floorSeq)))
              && (recGood && !metaGood ==> nvs == old(nvs)[0x100 + out.seqNo as nat % 2880 := RecordEntry(out)])
              && (ok ==> nvs == old(nvs)[0x100 + out.seqNo as nat % 2880 := RecordEntry(out)][1 := MetaEntry(next)])
      // which is what the steps of a run compose to
      ensures out == Stamp(old(RamNow()), uptimeMs, rec)
      ensures RamNow() == if recGood then Bump(old(RamNow()), out) else old(RamNow())
      ensures nvs == if !recGood then old(nvs)
                     else if !metaGood then PutRecord(old(nvs), out)
                     else PutMeta(PutRecord(old(nvs), out), RamNow())
    {
      out := rec.(seqNo := meta.nextSeq, ts := bootOffset + uptimeMs / 1000);
      if !recGood { return false, out; }
      nvs := nvs[ID_REC0 + out.seqNo % CAPACITY := RecordEntry(out)];
      meta := meta.(nextSeq := meta.nextSeq + 1);
      meta := meta.(baseSec := out.ts);
      if !metaGood { return false, out; }
      nvs := nvs[ID_META := MetaEntry(meta)];
      return true, out;
    }

    /** store_get: the slot's record, exactly if it carries the asked seq and that is claimed. */
    method GetRecord(s: u32) returns (r: Option<Record>)
      // so what the lemmas about Get say of runs holds of it
      ensures r == Get(nvs, RamNow(), s)
      ensures forall q :: r == Some(q) <==>
                && floorSeq <= s < meta.nextSeq && meta.nextSeq as nat <= s as nat + 2880 && q.seqNo == s
                && 0x100 + s as nat % 2880 in nvs && nvs[0x100 + s as nat % 2880] == RecordEntry(q)
    {
      var oldest := OldestSeq();
      if s >= meta.nextSeq || s < oldest { return None; }
      r := Fetch(nvs, s);
      if r.Some? && r.value.seqNo == s { return r; }
      return None;
    }
  }
}
