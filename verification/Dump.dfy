/** The BLE dump (dump_run in src/ble.c): one frame emitted in notifications of bounded size
    while records keep being appended to the ring. */
module Dump {
  import opened Bytes
  import opened Frame
  import opened Crc

  const BUF_SIZE: nat := 244

  /** The connection: notifications accepted so far, and how many more it will take before it
      is gone. */
  class Link {
    var sent: seq<seq<byte>>
    var room: nat

    constructor (room: nat)
      ensures sent == [] && this.room == room
    {
      this.sent, this.room := [], room;
    }

    method Notify(data: array<byte>, len: nat) returns (ok: bool)
      requires len <= data.Length
      modifies this
      ensures ok == (old(room) > 0)
      ensures sent == if ok then old(sent) + [data[..len]] else old(sent)
      ensures ok ==> room == old(room) - 1
      ensures !ok ==> room == 0
    {
      ok := room > 0;
      if ok {
        sent := sent + [data[..len]];
        room := room - 1;
      }
    }
  }

  /** What is sent for a seq the ring no longer holds. */
  function Placeholder(s: u32): Record {
    Record(s, 0, 0, 0, 0, SENSOR_FAULT + AQ_FAULT, 0, UNKNOWN_U, UNKNOWN_U, UNKNOWN_S, UNKNOWN_S, UNKNOWN_S)
  }

  /** The answer store_get gives this dump for a seq. Each seq is asked for once, so every
      interleaving with the appending thread is some function of this type. */
  type Answers = u32 -> Option<Record>

  function Sent(answers: Answers, s: u32): Record {
    if answers(s).Some? then answers(s).value else Placeholder(s)
  }

  function Answered(answers: Answers, r: Range): (rs: seq<Record>)
    requires r.start as nat + r.count as nat <= 0x1_0000_0000
    ensures |rs| == r.count
  {
    seq(r.count, i requires 0 <= i < r.count => Sent(answers, r.start + i))
  }

  lemma AnsweredAt(answers: Answers, r: Range, k: nat)
    requires r.start as nat + r.count as nat <= 0x1_0000_0000 && k < r.count
    ensures Answered(answers, r)[k] == Sent(answers, r.start + k)
  {}

  lemma RangeBelowNext(first: u32, oldest: u32, next: u32)
    ensures var r := DumpRange(first, oldest, next); r.start as nat + r.count as nat <= next
  {}

  function Chunk(mtu: u16): nat {
    var c := if mtu > 3 then mtu - 3 else 20;
    if c > BUF_SIZE then BUF_SIZE else c
  }

  /** The frame a completed dump stands for. */
  function FrameOf(id: seq<byte>, first: u32, oldest: u32, next: u32, answers: Answers): seq<byte> {
    RangeBelowNext(first, oldest, next);
    Whole(id, Answered(answers, DumpRange(first, oldest, next)))
  }

  /** A record from offset 4 on, behind its seq, that claims nothing: no time, count or occupancy,
      both sensor faults flagged, and every air value unknown rather than zero. */
  ghost predicate FaultAt(frame: seq<byte>, off: nat) {
    off + 24 <= |frame| && frame[off + 4..off + 24]
      == [0, 0, 0, 0, 0, 0, 0, 0, 0x41, 0, 0xFF, 0xFF, 0xFF, 0xFF, 0xFF, 0x7F, 0xFF, 0x7F, 0xFF, 0x7F]
  }

  /** What the frame carries for each selected seq: the encoding of the answer, or a fault under
      that seq. */
  ghost predicate Carries(frame: seq<byte>, r: Range, answers: Answers) {
    && |frame| == 16 + 24 * r.count as nat + 2 && r.start as nat + r.count as nat <= 0x1_0000_0000
    && forall s: u32 :: r.Has(s) ==> CarriesAt(frame, 16 + 24 * (s - r.start), s, answers(s))
  }

  ghost predicate CarriesAt(frame: seq<byte>, off: nat, s: u32, answer: Option<Record>) {
    && off + 24 <= |frame|
    && match answer
       case Some(rec) => frame[off..off + 24] == RecordBytes(rec)
       case None => frame[off..off + 4] == Le32(s) && FaultAt(frame, off)
  }

  lemma {:induction false} PlaceholderBytes(s: u32)
    ensures RecordBytes(Placeholder(s))[..4] == Le32(s) && FaultAt(RecordBytes(Placeholder(s)), 0)
  {
    assert Le16(0xFFFF) == [0xFF, 0xFF] && Le16(Unsigned(0x7FFF)) == [0xFF, 0x7F];
    assert Le32(0) == [0, 0, 0, 0] && Le16(0) == [0, 0];
  }

  lemma {:induction false} FrameCarries(id: seq<byte>, r: Range, answers: Answers)
    requires r.start as nat + r.count as nat <= 0x1_0000_0000
    ensures Carries(Whole(id, Answered(answers, r)), r, answers)
  {
    var rs := Answered(answers, r);
    var frame := Whole(id, rs);
    assert |frame| == 16 + 24 * |rs| + 2;
    forall s: u32 | r.Has(s) ensures CarriesAt(frame, 16 + 24 * (s - r.start), s, answers(s)) {
      var i := s - r.start;
      AnsweredAt(answers, r, i);
      assert rs[i] == Sent(answers, s);
      WholeRecordAt(id, rs, i);
      assert RecordAt(i) == 16 + 24 * i && RecordAt(i + 1) == 16 + 24 * i + 24;
      CarriesIf(frame, 16 + 24 * i, s, answers);
    }
  }

  lemma {:induction false} DumpCarries(id: seq<byte>, first: u32, oldest: u32, next: u32, answers: Answers)
    ensures Carries(FrameOf(id, first, oldest, next, answers), DumpRange(first, oldest, next), answers)
  {
    RangeBelowNext(first, oldest, next);
    FrameCarries(id, DumpRange(first, oldest, next), answers);
  }

  lemma {:induction false} CarriesIf(frame: seq<byte>, off: nat, s: u32, answers: Answers)
    requires off + 24 <= |frame| && frame[off..off + 24] == RecordBytes(Sent(answers, s))
    ensures CarriesAt(frame, off, s, answers(s))
  {
    if answers(s).None? { FaultInside(frame, off, s); }
  }

  lemma {:induction false} FaultInside(frame: seq<byte>, off: nat, s: u32)
    requires off + 24 <= |frame| && frame[off..off + 24] == RecordBytes(Placeholder(s))
    ensures frame[off..off + 4] == Le32(s) && FaultAt(frame, off)
  {
    PlaceholderBytes(s);
    var b := RecordBytes(Placeholder(s));
    assert frame[off..off + 4] == b[..4] && frame[off + 4..off + 24] == b[4..24];
  }

  ghost predicate Fit(sent: seq<seq<byte>>, chunk: nat) {
    forall i :: 0 <= i < |sent| ==> |sent[i]| <= chunk
  }

  lemma ConcatSnoc(parts: seq<seq<byte>>, p: seq<byte>)
    ensures Concat(parts + [p]) == Concat(parts) + p
  {}

  /** if (fill + need > chunk): send what is buffered and start the buffer over. */
  method MakeRoom(link: Link, buf: array<byte>, fill: nat, need: nat, chunk: nat) returns (ok: bool, fill': nat)
    requires fill <= buf.Length
    modifies link
    ensures fill' == if fill + need > chunk && ok then 0 else fill
    ensures ok ==> Concat(link.sent) + buf[..fill'] == old(Concat(link.sent)) + buf[..fill]
    ensures ok ==> link.sent == if fill + need > chunk then old(link.sent) + [buf[..fill]] else old(link.sent)
    ensures !ok ==> link.sent == old(link.sent) && link.room == 0
  {
    if fill + need > chunk {
      ok := link.Notify(buf, fill);
      if !ok { return false, fill; }
      ConcatSnoc(old(link.sent), buf[..fill]);
      return true, 0;
    }
    return true, fill;
  }

  /** One record into the buffer and the running CRC. */
  method AddRecord(buf: array<byte>, fill: nat, crc: u16, rec: Record) returns (fill': nat, crc': u16)
    requires fill + RECORD_SIZE <= buf.Length
    modifies buf
    ensures fill' == fill + RECORD_SIZE
    ensures buf[..fill'] == old(buf[..fill]) + RecordBytes(rec)
    ensures crc' == Crc16(crc, RecordBytes(rec))
  {
    EncodeRecord(buf, fill, rec);
    crc' := Compute(crc, buf, fill, RECORD_SIZE);
    fill' := fill + RECORD_SIZE;
    assert buf[..fill'] == buf[..fill] + buf[fill..fill'];
  }

  function BodyPrefix(id: seq<byte>, rs: seq<Record>, k: nat): seq<byte>
    requires k <= |rs| < 0x1_0000
  {
    HeaderBytes(|rs|, id) + Records(rs[..k])
  }

  lemma {:induction false} BodyPrefixSnoc(id: seq<byte>, rs: seq<Record>, k: nat)
    requires k < |rs| < 0x1_0000
    ensures BodyPrefix(id, rs, k + 1) == BodyPrefix(id, rs, k) + RecordBytes(rs[k])
    ensures Crc16(0xFFFF, BodyPrefix(id, rs, k + 1)) == Crc16(Crc16(0xFFFF, BodyPrefix(id, rs, k)), RecordBytes(rs[k]))
  {
    assert rs[..k + 1][..k] == rs[..k];
    assert BodyPrefix(id, rs, k + 1) == BodyPrefix(id, rs, k) + RecordBytes(rs[k]);
    Widths();
    Chain(CCITT, 0xFFFF, BodyPrefix(id, rs, k), RecordBytes(rs[k]));
  }

  lemma {:induction false} BodyPrefixOf(id: seq<byte>, rs: seq<Record>, k: nat)
    requires k <= |rs| < 0x1_0000
    ensures BodyPrefix(id, rs, k) <= Body(id, rs) <= Whole(id, rs)
    decreases |rs| - k
  {
    if k == |rs| {
      assert rs[..k] == rs;
    } else {
      BodyPrefixOf(id, rs, k + 1);
      BodyPrefixSnoc(id, rs, k);
    }
  }

  /** The sizes of what has been sent and of what is buffered after k records. */
  ghost predicate Sizes(sent: seq<seq<byte>>, fill: nat, k: nat, chunk: nat) {
    && Fit(sent, BUF_SIZE) && fill <= BUF_SIZE && (k == 0 ==> sent == [] && fill == HEADER_SIZE)
    && (chunk >= RECORD_SIZE ==> Fit(sent, chunk) && fill <= chunk)
    && (chunk < RECORD_SIZE ==> Fit(sent, RECORD_SIZE) && (k > 0 ==> fill == RECORD_SIZE))
    && (forall i :: 0 <= i < |sent| ==> |sent[i]| + RECORD_SIZE > chunk)
  }

  /** One more record, buffered after a send if it did not fit. */
  lemma SizesRecord(sent: seq<seq<byte>>, buffered: seq<byte>, k: nat, chunk: nat)
    requires Sizes(sent, |buffered|, k, chunk) && chunk <= BUF_SIZE
    ensures var (flush, fill) := (|buffered| + RECORD_SIZE > chunk, |buffered|);
            Sizes(if flush then sent + [buffered] else sent, (if flush then 0 else fill) + RECORD_SIZE, k + 1, chunk)
  {}

  /** Every notification leaves room for the three bytes of the ATT header. */
  ghost predicate FitMtu(sent: seq<seq<byte>>, mtu: nat) {
    forall i :: 0 <= i < |sent| ==> |sent[i]| + 3 <= mtu
  }

  /** The sizes of a completed dump: no notification but the last had room for another record
      within the MTU and the 244 bytes of the buffer, none is larger than a record where the MTU
      is not usable, and all fit the MTU exactly when a record does, or there is none to send and the header
      does. */
  ghost predicate Bounded(sent: seq<seq<byte>>, count: nat, mtu: u16) {
    && Fit(sent, 244)
    && (mtu > 3 ==> forall i :: 0 <= i < |sent| - 1 ==> |sent[i]| + 24 > 244 || |sent[i]| + 24 > mtu as int - 3)
    && (mtu <= 3 ==> Fit(sent, 24))
    && (FitMtu(sent, mtu) <==> mtu >= 27 || (count == 0 && mtu >= 19))
  }

  lemma {:induction false} SizesFinish(sent: seq<seq<byte>>, buffered: seq<byte>, tail: seq<byte>, k: nat, mtu: u16)
    requires Sizes(sent, |buffered|, k, Chunk(mtu)) && |tail| == 2
    ensures Bounded(if |buffered| + 2 > Chunk(mtu) then sent + [buffered, tail] else sent + [buffered + tail], k, mtu)
  {
    var all := if |buffered| + 2 > Chunk(mtu) then sent + [buffered, tail] else sent + [buffered + tail];
    assert |all[|sent|]| == if |buffered| + 2 > Chunk(mtu) then |buffered| else |buffered| + 2;
    assert FitMtu(all, mtu) <==> mtu > 3 && Fit(all, mtu as int - 3);
    assert mtu > 3 ==> (Fit(all, mtu as int - 3) <==> Fit(all, Chunk(mtu)));
  }

  /** At every MTU from the default of 23 to 26, a dump with a record to send puts more than 20
      bytes, and at 23 more than its limit, into some notification. */
  lemma SmallMtuOverrun(sent: seq<seq<byte>>, count: nat, mtu: u16)
    requires Bounded(sent, count, mtu) && 23 <= mtu <= 26 && count > 0
    ensures exists i :: 0 <= i < |sent| && |sent[i]| > mtu as int - 3
  {}

  /** What has been sent and what is buffered make up the header and the first k records. */
  ghost predicate Emitted(sent: seq<seq<byte>>, buffered: seq<byte>, crc: u16, id: seq<byte>, rs: seq<Record>, k: nat)
    requires k <= |rs| < 0x1_0000
  {
    Concat(sent) + buffered == BodyPrefix(id, rs, k) && crc == Crc16(0xFFFF, BodyPrefix(id, rs, k))
  }

  lemma {:induction false} EmittedSnoc(sent: seq<seq<byte>>, buffered: seq<byte>, crc: u16,
                                       id: seq<byte>, rs: seq<Record>, k: nat)
    requires k < |rs| < 0x1_0000 && Emitted(sent, buffered, crc, id, rs, k)
    ensures Emitted(sent, buffered + RecordBytes(rs[k]), Crc16(crc, RecordBytes(rs[k])), id, rs, k + 1)
  {
    BodyPrefixSnoc(id, rs, k);
    Assoc(Concat(sent), buffered, RecordBytes(rs[k]));
  }

  lemma {:induction false} EmittedStart(crc: u16, id: seq<byte>, rs: seq<Record>)
    requires |rs| < 0x1_0000 && crc == Crc16(0xFFFF, HeaderBytes(|rs|, id))
    ensures Emitted([], HeaderBytes(|rs|, id), crc, id, rs, 0)
  {
    assert BodyPrefix(id, rs, 0) == HeaderBytes(|rs|, id);
    assert [] + HeaderBytes(|rs|, id) == HeaderBytes(|rs|, id);
  }

  lemma {:induction false} EmittedPrefix(sent: seq<seq<byte>>, buffered: seq<byte>, crc: u16,
                                         id: seq<byte>, rs: seq<Record>, k: nat)
    requires k <= |rs| < 0x1_0000 && Emitted(sent, buffered, crc, id, rs, k)
    ensures Concat(sent) <= Body(id, rs)
  {
    BodyPrefixOf(id, rs, k);
    assert Concat(sent) <= Concat(sent) + buffered;
  }

  /** The body of the record loop. */
  method EmitRecord(link: Link, buf: array<byte>, fill: nat, chunk: nat, crc: u16, rec: Record,
                    ghost id: seq<byte>, ghost rs: seq<Record>, ghost k: nat)
    returns (ok: bool, fill': nat, crc': u16)
    requires buf.Length == BUF_SIZE && chunk <= BUF_SIZE && fill <= BUF_SIZE
    requires k < |rs| < 0x1_0000 && rs[k] == rec
    requires Sizes(link.sent, fill, k, chunk) && Emitted(link.sent, buf[..fill], crc, id, rs, k)
    modifies link, buf
    ensures ok ==> Sizes(link.sent, fill', k + 1, chunk) && Emitted(link.sent, buf[..fill'], crc', id, rs, k + 1)
    ensures !ok ==> Concat(link.sent) <= Body(id, rs) && link.room == 0
  {
    EmittedPrefix(link.sent, buf[..fill], crc, id, rs, k);
    SizesRecord(link.sent, buf[..fill], k, chunk);
    ok, fill' := MakeRoom(link, buf, fill, RECORD_SIZE, chunk);
    if !ok { return false, fill, crc; }
    EmittedSnoc(link.sent, buf[..fill'], crc, id, rs, k);
    fill', crc' := AddRecord(buf, fill', crc, rec);
  }

  /** The record loop. */
  method EmitRecords(link: Link, buf: array<byte>, range: Range, chunk: nat, id: seq<byte>, answers: Answers, crc0: u16)
    returns (ok: bool, fill: nat, crc: u16)
    requires range.start as nat + range.count as nat <= 0x1_0000_0000
    requires link.sent == [] && buf.Length == BUF_SIZE && chunk <= BUF_SIZE
    requires buf[..HEADER_SIZE] == HeaderBytes(range.count, id) && crc0 == Crc16(0xFFFF, HeaderBytes(range.count, id))
    modifies link, buf
    ensures ok ==> fill <= BUF_SIZE && Sizes(link.sent, fill, range.count, chunk)
                   && Emitted(link.sent, buf[..fill], crc, id, Answered(answers, range), range.count)
    ensures !ok ==> Concat(link.sent) <= Body(id, Answered(answers, range)) && link.room == 0
  {
    ghost var rs := Answered(answers, range);
    fill, crc := HEADER_SIZE, crc0;
    EmittedStart(crc, id, rs);
    var k: nat := 0;
    while k < range.count
      invariant k <= range.count && fill <= BUF_SIZE
      invariant Sizes(link.sent, fill, k, chunk) && Emitted(link.sent, buf[..fill], crc, id, rs, k)
    {
      AnsweredAt(answers, range, k);
      ok, fill, crc := EmitRecord(link, buf, fill, chunk, crc, Sent(answers, range.start + k), id, rs, k);
      if !ok { return; }
      k := k + 1;
    }
    ok := true;
  }

  method DumpRun(link: Link, first: u32, oldest: u32, next: u32, mtu: u16, id: seq<byte>, answers: Answers)
    returns (done: bool)
    requires link.sent == []
    requires |id| >= ID_LEN || 0 in id
    modifies link
    // all of the frame or a prefix of it, whatever the store answered in between
    ensures done ==> Concat(link.sent) == FrameOf(id, first, oldest, next, answers)
    ensures !done ==> Concat(link.sent) <= FrameOf(id, first, oldest, next, answers) && link.room == 0
    ensures done ==> Carries(Concat(link.sent), DumpRange(first, oldest, next), answers)
    ensures done ==> Bounded(link.sent, DumpRange(first, oldest, next).count, mtu)
  {
    RangeBelowNext(first, oldest, next);
    var range, chunk := DumpRange(first, oldest, next), Chunk(mtu);
    DumpCarries(id, first, oldest, next, answers);
    ghost var rs := Answered(answers, range);
    var buf := new byte[BUF_SIZE](_ => 0);
    EncodeHeader(buf, range.count, id);
    assert buf[0..0 + HEADER_SIZE] == buf[..HEADER_SIZE];
    var crc := Compute(0xFFFF, buf, 0, HEADER_SIZE);
    var ok, fill;
    ok, fill, crc := EmitRecords(link, buf, range, chunk, id, answers, crc);
    if !ok { return false; }
    assert rs[..range.count] == rs;
    SizesFinish(link.sent, buf[..fill], Le16(crc), range.count, mtu);
    done := Finish(link, buf, fill, crc, chunk);
  }

  /** The trailing CRC, in a notification of its own if it does not fit, and the last send. */
  method Finish(link: Link, buf: array<byte>, fill: nat, crc: u16, chunk: nat) returns (done: bool)
    requires fill <= buf.Length && 2 <= buf.Length && chunk <= buf.Length
    modifies link, buf
    ensures done ==> Concat(link.sent) == old(Concat(link.sent) + buf[..fill]) + Le16(crc)
    ensures !done ==> Concat(link.sent) <= old(Concat(link.sent) + buf[..fill]) && link.room == 0
    ensures done ==> link.sent == if fill + 2 > chunk then old(link.sent) + [old(buf[..fill]), Le16(crc)]
                                  else old(link.sent) + [old(buf[..fill]) + Le16(crc)]
  {
    var ok, f := MakeRoom(link, buf, fill, 2, chunk);
    if !ok { return false; }
    ghost var sent, front := link.sent, buf[..f];
    assert Concat(sent) + front == old(Concat(link.sent) + buf[..fill]);
    assert front == if fill + 2 > chunk then [] else old(buf[..fill]);
    buf[f] := crc % 0x100;
    buf[f + 1] := crc / 0x100;
    assert buf[..f + 2] == front + Le16(crc);
    done := link.Notify(buf, f + 2);
    if done {
      ConcatSnoc(sent, front + Le16(crc));
      Assoc(Concat(sent), front, Le16(crc));
      assert [] + Le16(crc) == Le16(crc);
    }
  }
}
