/** From the ring to the client: what a completed dump delivers in any run of the node
    (src/ble.c, src/store.c), and what a client that keeps asking from its last seq on gets
    over many visits (src/frame.c). */
module Sync {
  import opened Bytes
  import opened Frame
  import opened Store
  import opened StoreRuns
  import opened Dump

  // ---------------------------------------------------------------- one dump

  /** In state m the reading thread settles its answer for s: its fetch is compared, or one of
      the two range checks refuses. */
  ghost predicate Settles(m: Node, s: u32, answer: Option<Record>) {
    || (m.reader.Fetched? && m.reader.s == s && answer == if Hit(s, m.reader.got) then m.reader.got else None)
    || (m.reader == Bounded(s) && s < Oldest(m.ram) && answer == None)
    || (m.reader.Resting? && s >= m.ram.meta.nextSeq && answer == None)
  }

  lemma AnswerSound(m: Node, s: u32, answer: Option<Record>)
    requires Inv(m) && Settles(m, s, answer) && m.ram.floor <= s < m.ram.meta.nextSeq
    ensures answer.Some? ==> Logged(m, s, answer.value) && answer.value.seqNo == s
    ensures answer.Some? && m.clean ==> s < m.Committed()
    ensures answer.None? && m.clean ==> s as nat + CAPACITY <= m.Next()
  {}

  /** m is at most k appends ahead of n, in the same boot. */
  ghost predicate Ahead(n: Node, m: Node, k: nat) {
    && m.base == n.base && m.ram.floor == n.ram.floor && n.log <= m.log
    && n.ram.meta.nextSeq <= m.ram.meta.nextSeq <= n.ram.meta.nextSeq + k
  }

  lemma {:induction false} StepForward(n: Node, a: Action)
    requires Inv(n) && Enabled(n, a) && !a.PowerCycle?
    ensures Inv(Apply(n, a)) && Ahead(n, Apply(n, a), 1)
  {
    InvStep(n, a);
  }

  /** Within one boot the counter and the log only grow. */
  lemma {:induction false} BootForward(n: Node, acts: seq<Action>, m: Node)
    requires Inv(n) && Run(n, acts, m) && PowerCycle !in acts
    ensures Inv(m) && Ahead(n, m, |acts|)
    decreases |acts|
  {
    if acts == [] {
    } else {
      assert acts[0] in acts && forall a :: a in acts[1..] ==> a in acts;
      StepForward(n, acts[0]);
      BootForward(Apply(n, acts[0]), acts[1..], m);
    }
  }

  /** A dump's view of one boot: oldest and next are read at its two ends, in either order, with
      the appending thread free to run in between. */
  ghost predicate ReadAround(n: Node, m: Node, oldest: u32, next: u32) {
    || (oldest == Oldest(n.ram) && next == m.ram.meta.nextSeq)
    || (next == n.ram.meta.nextSeq && oldest == Oldest(m.ram))
  }

  /** The selected window exceeds the ring by at most what was appended while it was read. */
  lemma {:induction false} WindowRead(n: Node, acts: seq<Action>, m: Node, oldest: u32, next: u32)
    requires Inv(n) && Run(n, acts, m) && PowerCycle !in acts && ReadAround(n, m, oldest, next)
    ensures n.ram.floor <= oldest && next <= m.ram.meta.nextSeq
    ensures next as nat <= oldest as nat + CAPACITY + (m.Next() - n.Next())
  {
    BootForward(n, acts, m);
  }

  /** m is a state of the run from n by acts to end. */
  ghost predicate Within(n: Node, acts: seq<Action>, end: Node, m: Node) {
    exists k :: 0 <= k <= |acts| && Run(n, acts[..k], m) && Run(m, acts[k..], end)
  }

  /** Some state of that run settles s. */
  ghost predicate SettledIn(n: Node, acts: seq<Action>, end: Node, s: u32, answer: Option<Record>) {
    exists m :: Within(n, acts, end, m) && Settles(m, s, answer)
  }

  /** rec answers for s: the record logged under it, still in the log at the end of the run, or
      one that flags both sensors faulty and every air value unknown, and then while no meta
      write has failed s was at the ring's edge. */
  ghost predicate Delivered(end: Node, s: u32, rec: Record) {
    && rec.seqNo == s
    && (Logged(end, s, rec)
        || (rec == Record(s, 0, 0, 0, 0, 0x41, 0, 0xFFFF, 0xFFFF, 0x7FFF, 0x7FFF, 0x7FFF)
            && (end.clean ==> s as nat + 2880 <= end.Next())))
  }

  lemma {:induction false} DumpedRecord(n: Node, acts: seq<Action>, end: Node, s: u32, answers: Answers)
    requires Inv(n) && Run(n, acts, end) && PowerCycle !in acts && n.ram.floor <= s < n.ram.meta.nextSeq
    requires SettledIn(n, acts, end, s, answers(s))
    ensures Delivered(end, s, Sent(answers, s))
  {
    var m :| Within(n, acts, end, m) && Settles(m, s, answers(s));
    WithinForward(n, acts, end, m);
    AnswerSound(m, s, answers(s));
  }

  lemma {:induction false} WithinForward(n: Node, acts: seq<Action>, end: Node, m: Node)
    requires Inv(n) && PowerCycle !in acts && Within(n, acts, end, m)
    ensures Inv(m) && Ahead(n, m, |acts|) && Ahead(m, end, |acts|) && (end.clean ==> m.clean)
  {
    var k :| 0 <= k <= |acts| && Run(n, acts[..k], m) && Run(m, acts[k..], end);
    BootForward(n, acts[..k], m);
    BootForward(m, acts[k..], end);
    RunKeeps(m, acts[k..], end);
  }

  function DumpedRecords(first: u32, oldest: u32, next: u32, answers: Answers): (rs: seq<Record>)
    ensures |rs| == DumpRange(first, oldest, next).count
  {
    RangeBelowNext(first, oldest, next);
    Answered(answers, DumpRange(first, oldest, next))
  }

  /** A completed dump is a frame the reader accepts, whatever answers it got. */
  lemma {:induction false} DumpParses(first: u32, oldest: u32, next: u32, id: seq<byte>, answers: Answers)
    ensures ParseFrame(FrameOf(id, first, oldest, next, answers))
         == Some(Packet(CString(id, ID_LEN), DumpedRecords(first, oldest, next, answers)))
  {
    ParseWhole(id, DumpedRecords(first, oldest, next, answers));
  }

  /** A whole dump in a run of the node: from n to `begin` it reads oldest and next, from there
      to `end` it has every selected seq settled, appends and write errors falling anywhere.
      What its notifications concatenate to is accepted by the reader, with one record for each
      selected seq in order, each of them what the ring can deliver for it. */
  lemma {:induction false} DumpDelivers(n: Node, lead: seq<Action>, begin: Node, acts: seq<Action>, end: Node,
                                        first: u32, oldest: u32, next: u32, id: seq<byte>, answers: Answers,
                                        sent: seq<seq<byte>>)
    returns (rs: seq<Record>)
    requires Inv(n) && Run(n, lead, begin) && Run(begin, acts, end) && PowerCycle !in lead + acts
    requires ReadAround(n, begin, oldest, next)
    requires forall s: u32 :: DumpRange(first, oldest, next).Has(s) ==> SettledIn(begin, acts, end, s, answers(s))
    requires Concat(sent) == FrameOf(id, first, oldest, next, answers)
    ensures ParseFrame(Concat(sent)) == Some(Packet(CString(id, ID_LEN), rs))
    ensures var r := DumpRange(first, oldest, next);
            |rs| == r.count && forall i :: 0 <= i < |rs| ==> Delivered(end, r.start + i, rs[i])
  {
    rs := DumpedRecords(first, oldest, next, answers);
    DumpParses(first, oldest, next, id, answers);
    assert PowerCycle !in lead && PowerCycle !in acts;
    BootForward(n, lead, begin);
    WindowRead(n, lead, begin, oldest, next);
    forall i | 0 <= i < |rs| ensures Delivered(end, DumpRange(first, oldest, next).start + i, rs[i]) {
      SelectedRecord(begin, acts, end, first, oldest, next, answers, i);
    }
  }

  lemma {:induction false} SelectedRecord(n: Node, acts: seq<Action>, end: Node, first: u32, oldest: u32, next: u32,
                                          answers: Answers, i: nat)
    requires Inv(n) && Run(n, acts, end) && PowerCycle !in acts
    requires n.ram.floor <= oldest && next <= n.ram.meta.nextSeq && i < DumpRange(first, oldest, next).count
    requires forall s: u32 :: DumpRange(first, oldest, next).Has(s) ==> SettledIn(n, acts, end, s, answers(s))
    ensures DumpRange(first, oldest, next).start as nat + i < 0x1_0000_0000
    ensures Delivered(end, DumpRange(first, oldest, next).start + i, DumpedRecords(first, oldest, next, answers)[i])
  {
    var r := DumpRange(first, oldest, next);
    RangeBelowNext(first, oldest, next);
    AnsweredAt(answers, r, i);
    var s: u32 := r.start + i;
    assert r.Has(s);
    DumpRangeSelects(first, oldest, next, s);
    DumpedRecord(n, acts, end, s, answers);
  }

  // ---------------------------------------------------------------- many dumps

  /** What the client's visit reads of the ring. */
  datatype Visit = Visit(oldest: u32, next: u32)

  /** What the client asks for after those visits: the last seq received plus one. */
  function Asked(first: u32, vs: seq<Visit>): u32
    decreases |vs|
  {
    if vs == [] then first else
      var v, a := vs[|vs| - 1], Asked(first, vs[..|vs| - 1]);
      RangeBelowNext(a, v.oldest, v.next);
      var r := DumpRange(a, v.oldest, v.next);
      if r.count == 0 then a else r.start + r.count
  }

  function Received(first: u32, vs: seq<Visit>, k: nat): Range
    requires k < |vs|
  {
    DumpRange(Asked(first, vs[..k]), vs[k].oldest, vs[k].next)
  }

  ghost predicate Dropped(vs: seq<Visit>, s: nat) { exists k :: 0 <= k < |vs| && s < vs[k].oldest }

  ghost predicate Seen(first: u32, vs: seq<Visit>, s: nat) {
    exists k :: 0 <= k < |vs| && Received(first, vs, k).Has(s)
  }

  lemma {:induction false} SeenSnoc(first: u32, vs: seq<Visit>, s: nat)
    requires vs != []
    ensures Seen(first, vs, s) <==> Seen(first, vs[..|vs| - 1], s) || Received(first, vs, |vs| - 1).Has(s)
  {
    var early := vs[..|vs| - 1];
    assert forall i :: 0 <= i < |early| ==> early[..i] == vs[..i] && early[i] == vs[i];
    assert forall i :: 0 <= i < |early| ==> Received(first, early, i) == Received(first, vs, i);
    if Seen(first, early, s) {
      var i :| 0 <= i < |early| && Received(first, early, i).Has(s);
      assert Received(first, vs, i).Has(s);
    }
  }

  lemma {:induction false} DroppedSnoc(vs: seq<Visit>, s: nat)
    requires vs != []
    ensures Dropped(vs, s) <==> Dropped(vs[..|vs| - 1], s) || s < vs[|vs| - 1].oldest
  {
    var early := vs[..|vs| - 1];
    if Dropped(early, s) {
      var i :| 0 <= i < |early| && s < early[i].oldest;
      assert s < vs[i].oldest;
    }
  }

  /** Whatever windows the visits saw: everything below the next question was received or had
      left the ring; nothing from it on has been received. */
  lemma {:induction false} AskedSplits(first: u32, vs: seq<Visit>, s: nat)
    requires first <= s
    ensures s < Asked(first, vs) ==> Seen(first, vs, s) || Dropped(vs, s)
    ensures Seen(first, vs, s) ==> s < Asked(first, vs)
    decreases |vs|
  {
    if vs == [] {
    } else {
      var v, early := vs[|vs| - 1], vs[..|vs| - 1];
      AskedSplits(first, early, s);
      SeenSnoc(first, vs, s);
      DroppedSnoc(vs, s);
      DumpRangeSelects(Asked(first, early), v.oldest, v.next, s);
    }
  }

  /** A client that always asks from its last seq on receives no seq twice. */
  lemma {:induction false} NoneTwice(first: u32, vs: seq<Visit>, s: nat, i: nat, j: nat)
    requires first <= s && i < j < |vs|
    ensures !(Received(first, vs, i).Has(s) && Received(first, vs, j).Has(s))
  {
    AskedSplits(first, vs[..j], s);
    assert vs[..j][..i] == vs[..i];
    if Received(first, vs, i).Has(s) {
      assert Received(first, vs[..j], i).Has(s);
      DumpRangeSelects(Asked(first, vs[..j]), vs[j].oldest, vs[j].next, s);
    }
  }

  /** And of the seqs appended by the last visit it misses only such as had already left the
      ring, unless that visit alone had more to send than a frame can count. */
  lemma {:induction false} NoneMissed(first: u32, vs: seq<Visit>, s: nat)
    requires vs != [] && first <= s < vs[|vs| - 1].next as nat
    requires s < Asked(first, vs[..|vs| - 1]) as nat + 0xFFFF || s < vs[|vs| - 1].oldest as nat + 0xFFFF
    ensures Seen(first, vs, s) || Dropped(vs, s)
  {
    var v, early := vs[|vs| - 1], vs[..|vs| - 1];
    AskedSplits(first, early, s);
    SeenSnoc(first, vs, s);
    DroppedSnoc(vs, s);
    DumpRangeSelects(Asked(first, early), v.oldest, v.next, s);
  }
}
