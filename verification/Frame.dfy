/** SNTL wire frame, version 3 (src/frame.c, src/frame.h): what the node encodes, the reader it
    is encoded for, and which records a dump answers with. */
module Frame {
  import opened Bytes
  import opened Crc

  const VERSION: byte := 3
  const RECORD_SIZE: nat := 24
  const HEADER_SIZE: nat := 16
  const ID_LEN: nat := 8
  const UNKNOWN_U: u16 := 0xFFFF
  const UNKNOWN_S: i16 := 0x7FFF
  const SENSOR_FAULT: byte := 0x01
  const RTC_UNSET: byte := 0x04
  const NO_TRACKER: byte := 0x20
  const AQ_FAULT: byte := 0x40

  datatype Record = Record(seqNo: u32, ts: u32, headcount: byte, occS: byte, dwellS: u16,
                           flags: byte, batt: byte, pm25: u16, pm10: u16,
                           temp: i16, rh: i16, voc: i16)

  function Magic(): (m: seq<byte>) ensures |m| == 4 { [0x53, 0x4E, 0x54, 0x4C] }

  // ---------------------------------------------------------------- records

  function RecordBytes(r: Record): (s: seq<byte>)
    ensures |s| == RECORD_SIZE
  {
    Le32(r.seqNo) + Le32(r.ts) + [r.headcount, r.occS] + Le16(r.dwellS) + [r.flags, r.batt]
      + Le16(r.pm25) + Le16(r.pm10) + Le16(Unsigned(r.temp)) + Le16(Unsigned(r.rh)) + Le16(Unsigned(r.voc))
  }

  /** The reader's side, from the documented offsets. */
  function DecodeRecord(s: seq<byte>): Record
    requires |s| == RECORD_SIZE
  {
    Record(Rd32(s, 0), Rd32(s, 4), s[8], s[9], Rd16(s, 10), s[12], s[13], Rd16(s, 14), Rd16(s, 16),
           Signed(Rd16(s, 18)), Signed(Rd16(s, 20)), Signed(Rd16(s, 22)))
  }

  /** Decoding undoes encoding ... */
  lemma {:induction false} DecodeEncode(r: Record)
    ensures DecodeRecord(RecordBytes(r)) == r
  {
    var t := RecordBytes(r);
    assert t[0..4] == Le32(r.seqNo) && t[4..8] == Le32(r.ts);
    Rd32Le32(t, 0, r.seqNo);
    Rd32Le32(t, 4, r.ts);
    assert t[10..12] == Le16(r.dwellS) && t[14..16] == Le16(r.pm25) && t[16..18] == Le16(r.pm10);
    Rd16Le16(t, 10, r.dwellS);
    Rd16Le16(t, 14, r.pm25);
    Rd16Le16(t, 16, r.pm10);
    assert t[18..20] == Le16(Unsigned(r.temp)) && t[20..22] == Le16(Unsigned(r.rh));
    assert t[22..24] == Le16(Unsigned(r.voc));
    Rd16Le16(t, 18, Unsigned(r.temp));
    Rd16Le16(t, 20, Unsigned(r.rh));
    Rd16Le16(t, 22, Unsigned(r.voc));
  }

  /** ... and every 24 bytes are the encoding of exactly one record: no byte is redundant. */
  lemma {:induction false} EncodeDecode(s: seq<byte>)
    requires |s| == RECORD_SIZE
    ensures RecordBytes(DecodeRecord(s)) == s
  {
    var r := DecodeRecord(s);
    assert Le32(r.seqNo) == s[0..4] && Le32(r.ts) == s[4..8] by { Le32Rd32(s, 0); Le32Rd32(s, 4); }
    assert Le16(r.dwellS) == s[10..12] by { Le16Rd16(s, 10); }
    assert Le16(r.pm25) == s[14..16] && Le16(r.pm10) == s[16..18] by { Le16Rd16(s, 14); Le16Rd16(s, 16); }
    assert Le16(Unsigned(r.temp)) == s[18..20] by { Le16Rd16(s, 18); }
    assert Le16(Unsigned(r.rh)) == s[20..22] by { Le16Rd16(s, 20); }
    assert Le16(Unsigned(r.voc)) == s[22..24] by { Le16Rd16(s, 22); }
    assert s == s[0..4] + s[4..8] + [s[8], s[9]] + s[10..12] + [s[12], s[13]]
             + s[14..16] + s[16..18] + s[18..20] + s[20..22] + s[22..24];
  }

  method Put16(out: array<byte>, off: nat, x: u16)
    requires off + 2 <= out.Length
    modifies out
    ensures out[off] == Le16(x)[0] && out[off + 1] == Le16(x)[1]
    ensures forall j :: 0 <= j < out.Length && !(off <= j < off + 2) ==> out[j] == old(out[j])
  {
    out[off] := x % 0x100;
    out[off + 1] := x / 0x100;
  }

  method Put32(out: array<byte>, off: nat, x: u32)
    requires off + 4 <= out.Length
    modifies out
    ensures forall j :: 0 <= j < 4 ==> out[off + j] == Le32(x)[j]
    ensures forall j :: 0 <= j < out.Length && !(off <= j < off + 4) ==> out[j] == old(out[j])
  {
    out[off] := x % 0x100;
    out[off + 1] := x / 0x100 % 0x100;
    out[off + 2] := x / 0x1_0000 % 0x100;
    out[off + 3] := x / 0x100_0000;
  }

  /** The 14 bytes shared with version 2, then the air-quality tail. */
  method EncodeRecord(out: array<byte>, off: nat, r: Record)
    requires off + RECORD_SIZE <= out.Length
    modifies out
    ensures out[off..off + RECORD_SIZE] == RecordBytes(r)
    ensures forall j :: 0 <= j < out.Length && !(off <= j < off + RECORD_SIZE) ==> out[j] == old(out[j])
  {
    EncodePresence(out, off, r);
    ghost var front := out[off..off + 14];
    EncodeAir(out, off + 14, r);
    assert out[off..off + 14] == front;
    assert out[off..off + 24] == out[off..off + 14] + out[off + 14..off + 14 + 10];
  }

  method EncodePresence(out: array<byte>, off: nat, r: Record)
    requires off + 14 <= out.Length
    modifies out
    ensures out[off..off + 14] == RecordBytes(r)[..14]
    ensures forall j :: 0 <= j < out.Length && !(off <= j < off + 14) ==> out[j] == old(out[j])
  {
    EncodeStamp(out, off, r);
    ghost var stamp := out[off..off + 8];
    out[off + 8] := r.headcount;
    out[off + 9] := r.occS;
    Put16(out, off + 10, r.dwellS);
    out[off + 12] := r.flags;
    out[off + 13] := r.batt;
    var d := Le16(r.dwellS);
    assert out[off..off + 8] == stamp;
    assert out[off..off + 14] == stamp + [r.headcount, r.occS, d[0], d[1], r.flags, r.batt];
  }

  method EncodeStamp(out: array<byte>, off: nat, r: Record)
    requires off + 8 <= out.Length
    modifies out
    ensures out[off..off + 8] == Le32(r.seqNo) + Le32(r.ts)
    ensures forall j :: 0 <= j < out.Length && !(off <= j < off + 8) ==> out[j] == old(out[j])
  {
    Put32(out, off, r.seqNo);
    ghost var first := out[off..off + 4];
    Put32(out, off + 4, r.ts);
    assert out[off..off + 4] == first == Le32(r.seqNo);
    assert out[off + 4..off + 8] == Le32(r.ts);
    assert out[off..off + 8] == out[off..off + 4] + out[off + 4..off + 8];
  }

  method EncodeAir(out: array<byte>, off: nat, r: Record)
    requires off + 10 <= out.Length
    modifies out
    ensures out[off..off + 10] == RecordBytes(r)[14..]
    ensures forall j :: 0 <= j < out.Length && !(off <= j < off + 10) ==> out[j] == old(out[j])
  {
    Put16(out, off, r.pm25);
    Put16(out, off + 2, r.pm10);
    Put16(out, off + 4, Unsigned(r.temp));
    Put16(out, off + 6, Unsigned(r.rh));
    Put16(out, off + 8, Unsigned(r.voc));
  }

  // ---------------------------------------------------------------- header

  /** A C string of at most n characters: up to the first NUL. */
  function CString(s: seq<byte>, n: nat): (t: seq<byte>)
    ensures |t| <= n && t <= s && 0 !in t
    ensures |t| == n || |t| == |s| || s[|t|] == 0
    decreases n
  {
    if n == 0 || s == [] || s[0] == 0 then [] else [s[0]] + CString(s[1..], n - 1)
  }

  function Padded(s: seq<byte>): (t: seq<byte>)
    requires |s| <= ID_LEN
    ensures |t| == ID_LEN
  {
    s + seq(ID_LEN - |s|, _ => 0)
  }

  function HeaderBytes(count: u16, id: seq<byte>): (s: seq<byte>)
    ensures |s| == HEADER_SIZE
  {
    Magic() + [VERSION, RECORD_SIZE as byte] + Le16(count) + Padded(CString(id, ID_LEN))
  }

  /** sntl_encode_header. A string shorter than the field must be NUL-terminated. */
  method EncodeHeader(out: array<byte>, count: u16, id: seq<byte>)
    requires HEADER_SIZE <= out.Length
    requires |id| >= ID_LEN || 0 in id
    modifies out
    ensures out[..HEADER_SIZE] == HeaderBytes(count, id)
    ensures forall j :: HEADER_SIZE <= j < out.Length ==> out[j] == old(out[j])
  {
    out[0], out[1], out[2], out[3] := 0x53, 0x4E, 0x54, 0x4C;
    out[4] := VERSION;
    out[5] := RECORD_SIZE;
    Put16(out, 6, count);
    ghost var front := out[..8];
    assert front == Magic() + [VERSION, RECORD_SIZE as byte] + Le16(count);
    PutId(out, id);
    assert out[..8] == front;
    assert out[..HEADER_SIZE] == out[..8] + out[8..16];
  }

  /** Zero the field, then copy up to eight characters. */
  method PutId(out: array<byte>, id: seq<byte>)
    requires HEADER_SIZE <= out.Length
    requires |id| >= ID_LEN || 0 in id
    modifies out
    ensures out[8..16] == Padded(CString(id, ID_LEN))
    ensures forall k :: 0 <= k < 8 ==> out[8 + k] == if k < |CString(id, 8)| then CString(id, 8)[k] else 0
    ensures forall j :: 0 <= j < out.Length && !(8 <= j < HEADER_SIZE) ==> out[j] == old(out[j])
  {
    ZeroId(out);
    CopyId(out, id, CString(id, ID_LEN));
  }

  method CopyId(out: array<byte>, id: seq<byte>, ghost name: seq<byte>)
    requires HEADER_SIZE <= out.Length && forall j :: 8 <= j < HEADER_SIZE ==> out[j] == 0
    requires |name| <= ID_LEN && name <= id && 0 !in name
    requires |name| == ID_LEN || (|name| < |id| && id[|name|] == 0)
    modifies out
    ensures out[8..16] == Padded(name)
    ensures forall k :: 0 <= k < 8 ==> out[8 + k] == if k < |name| then name[k] else 0
    ensures forall j :: 0 <= j < out.Length && !(8 <= j < HEADER_SIZE) ==> out[j] == old(out[j])
  {
    var i := 0;
    while i < ID_LEN && id[i] != 0
      invariant i <= |name|
      invariant forall j :: 8 <= j < HEADER_SIZE ==> out[j] == if j - 8 < i then name[j - 8] else 0
      invariant forall j :: 0 <= j < out.Length && !(8 <= j < HEADER_SIZE) ==> out[j] == old(out[j])
    {
      out[8 + i] := id[i];
      i := i + 1;
    }
  }

  method ZeroId(out: array<byte>)
    requires HEADER_SIZE <= out.Length
    modifies out
    ensures forall j :: 8 <= j < HEADER_SIZE ==> out[j] == 0
    ensures forall j :: 0 <= j < out.Length && !(8 <= j < HEADER_SIZE) ==> out[j] == old(out[j])
  {
    for i := 8 to HEADER_SIZE
      invariant forall j :: 8 <= j < i ==> out[j] == 0
      invariant forall j :: 0 <= j < out.Length && !(8 <= j < HEADER_SIZE) ==> out[j] == old(out[j])
    {
      out[i] := 0;
    }
  }

  // ---------------------------------------------------------------- whole frames

  function Records(rs: seq<Record>): (s: seq<byte>)
    ensures |s| == 24 * |rs|
  {
    if rs == [] then [] else Records(rs[..|rs| - 1]) + RecordBytes(rs[|rs| - 1])
  }

  /** Where the i-th record of a frame starts: 16 + 24 * i. */
  function RecordAt(i: nat): nat { 16 + 24 * i }

  function Body(id: seq<byte>, rs: seq<Record>): (s: seq<byte>)
    requires |rs| < 0x1_0000
    ensures |s| == RecordAt(|rs|)
  {
    HeaderBytes(|rs|, id) + Records(rs)
  }

  /** The whole frame built at once: header, records, and the CRC of all that precedes. */
  function Whole(id: seq<byte>, rs: seq<Record>): (s: seq<byte>)
    requires |rs| < 0x1_0000
    ensures |s| == FrameSize(|rs|)
  {
    Body(id, rs) + Le16(Crc16(0xFFFF, Body(id, rs)))
  }

  function FrameSize(count: u16): nat { RecordAt(count) + 2 }

  datatype Packet = Packet(id: seq<byte>, records: seq<Record>)

  /** The reader the format is documented for: it concatenates notifications, checks magic,
      version, record size, length and CRC, and uses the record count to find the end. */
  function ParseFrame(s: seq<byte>): Option<Packet> {
    if |s| < HEADER_SIZE || s[..4] != Magic() || s[4] != VERSION || s[5] != RECORD_SIZE then None
    else
      var count := Rd16(s, 6);
      if |s| != FrameSize(count) || Rd16(s, |s| - 2) != Crc16(0xFFFF, s[..|s| - 2]) then None
      else Some(Packet(CString(s[8..16], ID_LEN),
                       seq(count, i requires 0 <= i < count => DecodeRecord(s[RecordAt(i)..RecordAt(i + 1)]))))
  }


  lemma {:induction false} RecordsAt(rs: seq<Record>, i: nat)
    requires i < |rs|
    ensures Records(rs)[24 * i..24 * i + 24] == RecordBytes(rs[i])
    decreases |rs|
  {
    var k := |rs| - 1;
    var early, last := Records(rs[..k]), RecordBytes(rs[k]);
    if i < k {
      RecordsAt(rs[..k], i);
    }
    Slices(early, last, 24 * i);
  }

  lemma Slices(a: seq<byte>, b: seq<byte>, i: nat)
    ensures i + 24 <= |a| ==> (a + b)[i..i + 24] == a[i..i + 24]
    ensures i == |a| && |b| == 24 ==> (a + b)[i..i + 24] == b
  {}

  lemma {:induction false} CStringOfPadded(s: seq<byte>, n: nat)
    requires |s| <= n && 0 !in s
    ensures CString(s + seq(n - |s|, _ => 0), n) == s
    decreases n
  {
    if s == [] {
    } else {
      assert (s + seq(n - |s|, _ => 0))[1..] == s[1..] + seq(n - |s|, _ => 0);
      CStringOfPadded(s[1..], n - 1);
    }
  }

  lemma {:induction false} HeaderParts(count: u16, id: seq<byte>)
    ensures var h := HeaderBytes(count, id);
            h[..4] == Magic() == [0x53, 0x4E, 0x54, 0x4C] && h[4] == VERSION == 3 && h[5] == 24 == RECORD_SIZE
            && Rd16(h, 6) == count && CString(h[8..16], 8) == CString(id, 8)
  {
    var name := CString(id, ID_LEN);
    HeaderSlices(count, Padded(name));
    CStringOfPadded(name, ID_LEN);
  }

  lemma {:induction false} HeaderSlices(count: u16, field: seq<byte>)
    requires |field| == ID_LEN
    ensures var h := Magic() + [VERSION, RECORD_SIZE as byte] + Le16(count) + field;
            h[..4] == Magic() && h[4] == VERSION && h[5] == RECORD_SIZE && Rd16(h, 6) == count && h[8..16] == field
  {
    var h := Magic() + [VERSION, RECORD_SIZE as byte] + Le16(count) + field;
    assert h[6..6 + 2] == Le16(count);
    Rd16Le16(h, 6, count);
  }

  lemma {:induction false} WholeHead(id: seq<byte>, rs: seq<Record>)
    requires |rs| < 0x1_0000
    ensures var s := Whole(id, rs);
            && s[..4] == Magic() && s[4] == VERSION && s[5] == RECORD_SIZE && Rd16(s, 6) == |rs|
            && CString(s[8..16], ID_LEN) == CString(id, ID_LEN)
  {
    var (s, h) := (Whole(id, rs), HeaderBytes(|rs|, id));
    HeaderParts(|rs|, id);
    assert s[..HEADER_SIZE] == h;
    assert s[..4] == h[..4] && s[8..16] == h[8..16];
    assert s[4] == h[4] && s[5] == h[5] && s[6] == h[6] && s[7] == h[7];
  }

  lemma WholeTail(id: seq<byte>, rs: seq<Record>)
    requires |rs| < 0x1_0000
    ensures var s := Whole(id, rs);
            s[..|s| - 2] == Body(id, rs) && Rd16(s, |s| - 2) == Crc16(0xFFFF, Body(id, rs))
  {}

  lemma {:induction false} WholeRecordAt(id: seq<byte>, rs: seq<Record>, i: nat)
    requires |rs| < 0x1_0000 && i < |rs|
    ensures Whole(id, rs)[RecordAt(i)..RecordAt(i + 1)] == RecordBytes(rs[i])
    ensures DecodeRecord(Whole(id, rs)[RecordAt(i)..RecordAt(i + 1)]) == rs[i]
  {
    RecordsAt(rs, i);
    var (h, t, c) := (HeaderBytes(|rs|, id), Records(rs), Le16(Crc16(0xFFFF, Body(id, rs))));
    assert (h + t + c)[RecordAt(i)..RecordAt(i + 1)] == t[24 * i..24 * i + 24];
    DecodeEncode(rs[i]);
  }

  /** The reader recovers exactly what was framed, records in order and the device id. */
  lemma {:induction false} ParseWhole(id: seq<byte>, rs: seq<Record>)
    requires |rs| < 0x1_0000
    ensures ParseFrame(Whole(id, rs)) == Some(Packet(CString(id, ID_LEN), rs))
  {
    WholeHead(id, rs);
    WholeTail(id, rs);
    forall i | 0 <= i < |rs| ensures DecodeRecord(Whole(id, rs)[RecordAt(i)..RecordAt(i + 1)]) == rs[i] {
      WholeRecordAt(id, rs, i);
    }
    assert ParseFrame(Whole(id, rs)).value.records == rs;
  }

  // ---------------------------------------------------------------- the dump command

  /** sntl_parse_cmd: 0x01, then the first wanted seq. */
  function ParseCmd(s: seq<byte>): Option<u32> {
    if |s| != 5 || s[0] != 0x01 then None else Some(Rd32(s, 1))
  }

  /** Exactly the 5-byte dump commands are accepted, each for the seq it was built from. */
  lemma {:induction false} CmdRoundTrip(s: seq<byte>, first: u32)
    ensures ParseCmd(s) == Some(first) <==> s == [0x01] + Le32(first)
  {
    if s == [0x01] + Le32(first) {
      assert s[1..5] == Le32(first);
      Rd32Le32(s, 1, first);
    } else if |s| == 5 && s[0] == 1 {
      Le32Rd32(s, 1);
      assert s == [s[0]] + s[1..5];
    }
  }

  datatype Range = Range(start: u32, count: u16) {
    predicate Has(s: nat) { start <= s < start as nat + count as nat }
  }

  function DumpRange(first: u32, oldest: u32, next: u32): Range {
    var start := if first > oldest then first else oldest;
    if start >= next then Range(next, 0)
    else
      var count := next as nat - start as nat;
      Range(start, if count > 0xFFFF then 0xFFFF else count)
  }

  /** For every triple: the held seqs at or above first, except those past the 16-bit count. */
  lemma DumpRangeSelects(first: u32, oldest: u32, next: u32, s: nat)
    ensures var r := DumpRange(first, oldest, next);
            r.Has(s) <==> first <= s && oldest <= s < next && (s < first as nat + 0xFFFF || s < oldest as nat + 0xFFFF)
  {}

  /** The clamp bites exactly when more than 65535 selected seqs are held. */
  lemma {:induction false} DumpRangeComplete(first: u32, oldest: u32, next: u32)
    ensures (forall s: nat :: DumpRange(first, oldest, next).Has(s) <==> first <= s && oldest <= s < next)
       <==> (next as nat <= first as nat + 0xFFFF || next as nat <= oldest as nat + 0xFFFF)
  {
    var r := DumpRange(first, oldest, next);
    if !(next as nat <= first as nat + 0xFFFF || next as nat <= oldest as nat + 0xFFFF) {
      var top := next as nat - 1;
      assert !r.Has(top);
      assert first <= top && oldest <= top < next;
    }
  }
}
