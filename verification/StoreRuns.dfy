/** Every run of the flash ring: the appending thread stopped between any two of its writes, a
    reading thread interleaved with it, write errors, power cuts and reboots (src/store.c).

    The mutex of store.c is the condition pc.Idle? on the reader's flash access. What a run
    stored is remembered in history variables: log, the records in append order from seq
    `base` on; given, what store_get returned; clean, that no meta write has failed so far. */
module StoreRuns {
  import opened Bytes
  import opened Frame
  import opened Store

  datatype Pc = Idle | Stamped(rec: Record) | Written(rec: Record) | Bumped(rec: Record)

  datatype Reader = Resting | Bounded(s: u32) | Ranged(s: u32) | Fetched(s: u32, got: Option<Record>)

  datatype Node = Node(nvs: Nvs, ram: Ram, uptimeMs: nat, pc: Pc, reader: Reader,
                       base: nat, log: seq<Record>, given: map<nat, Record>, clean: bool)
  {
    function Next(): nat { ram.meta.nextSeq }

    function Committed(): nat { ReadMeta(nvs).nextSeq }
  }

  datatype Action =
    | Tick(ms: nat)
    | Lock(rec: Record) | RecordOk | RecordFail | Increment | MetaOk | MetaFail
    | ReadUpper(s: u32) | ReadLower | ReadSlot | ReadDone
    | PowerCycle

  predicate Enabled(n: Node, a: Action) {
    match a
    case Tick(_) => true
    case Lock(_) => n.pc.Idle? && Now(n.ram, n.uptimeMs) < 0x1_0000_0000 && n.Next() + 1 < 0x1_0000_0000
    case RecordOk => n.pc.Stamped?
    case RecordFail => n.pc.Stamped?
    case Increment => n.pc.Written? && n.Next() + 1 < 0x1_0000_0000
    case MetaOk => n.pc.Bumped?
    case MetaFail => n.pc.Bumped?
    case ReadUpper(_) => n.reader.Resting?
    case ReadLower => n.reader.Bounded?
    case ReadSlot => n.reader.Ranged? && n.pc.Idle?
    case ReadDone => n.reader.Fetched?
    case PowerCycle => true
  }

  function Take<T>(s: seq<T>, k: int): seq<T> { if 0 <= k <= |s| then s[..k] else s }

  predicate Hit(s: nat, got: Option<Record>) { got.Some? && got.value.seqNo == s }

  function Apply(n: Node, a: Action): Node
    requires Enabled(n, a)
  {
    match a
    case Tick(ms) => n.(uptimeMs := n.uptimeMs + ms)
    case Lock(rec) => n.(pc := Stamped(Stamp(n.ram, n.uptimeMs, rec)))
    case RecordOk => n.(nvs := PutRecord(n.nvs, n.pc.rec), pc := Written(n.pc.rec))
    case RecordFail => n.(pc := Idle)
    case Increment => n.(ram := Bump(n.ram, n.pc.rec), log := n.log + [n.pc.rec], pc := Bumped(n.pc.rec))
    case MetaOk => n.(nvs := PutMeta(n.nvs, n.ram), pc := Idle)
    case MetaFail => n.(pc := Idle, clean := false)
    case ReadUpper(s) => n.(reader := if s < n.ram.meta.nextSeq then Bounded(s) else Resting)
    case ReadLower => n.(reader := if n.reader.s >= Oldest(n.ram) then Ranged(n.reader.s) else Resting)
    case ReadSlot => n.(reader := Fetched(n.reader.s, Fetch(n.nvs, n.reader.s)))
    case ReadDone => n.(reader := Resting,
                        given := if Hit(n.reader.s, n.reader.got) then n.given[n.reader.s as nat := n.reader.got.value]
                                 else n.given)
    case PowerCycle => Node(BootFlash(n.nvs), BootRam(n.nvs), 0, Idle, Resting,
                            n.base, Take(n.log, n.Committed() - n.base), n.given, n.clean)
  }

  /** A node that boots after the first `done` operations of a format change, all four of them
      or cut short by power: first boot ever, or a new record layout. */
  function Start(flash: Nvs, done: nat): Node {
    var nvs := Migrated(flash, done);
    Node(BootFlash(nvs), BootRam(nvs), 0, Idle, Resting, BootRam(nvs).meta.nextSeq, [], map[], true)
  }

  ghost predicate Run(n: Node, acts: seq<Action>, n': Node)
    decreases |acts|
  {
    if acts == [] then n == n' else Enabled(n, acts[0]) && Run(Apply(n, acts[0]), acts[1..], n')
  }

  ghost predicate Reaches(n: Node, n': Node) { exists acts :: Run(n, acts, n') }

  /** The steps of an append and of a read, run without interruption, do what the methods
      Append and GetRecord do. */
  lemma {:induction false} AppendIsSteps(n: Node, rec: Record, metaGood: bool)
    requires Enabled(n, Lock(rec))
    ensures var out := Stamp(n.ram, n.uptimeMs, rec);
            var (nvs, ram) := (PutRecord(n.nvs, out), Bump(n.ram, out));
            var n' := n.(ram := ram, log := n.log + [out], nvs := if metaGood then PutMeta(nvs, ram) else nvs,
                         clean := n.clean && metaGood);
            Run(n, [Lock(rec), RecordOk, Increment, if metaGood then MetaOk else MetaFail], n')
  {
    var out := Stamp(n.ram, n.uptimeMs, rec);
    var n1 := n.(pc := Stamped(out));
    var n2 := n1.(nvs := PutRecord(n.nvs, out), pc := Written(out));
    var n3 := n2.(ram := Bump(n.ram, out), log := n.log + [out], pc := Bumped(out));
    assert n1 == Apply(n, Lock(rec)) && n2 == Apply(n1, RecordOk) && n3 == Apply(n2, Increment);
    RunFour(n, Lock(rec), n1, RecordOk, n2, Increment, n3, if metaGood then MetaOk else MetaFail);
  }

  lemma {:induction false} RunFour(n: Node, a: Action, n1: Node, b: Action, n2: Node, c: Action, n3: Node, d: Action)
    requires Enabled(n, a) && n1 == Apply(n, a) && Enabled(n1, b) && n2 == Apply(n1, b)
    requires Enabled(n2, c) && n3 == Apply(n2, c) && Enabled(n3, d)
    ensures Run(n, [a, b, c, d], Apply(n3, d))
  {
    assert [a, b, c, d][1..] == [b, c, d] && [b, c, d][1..] == [c, d];
    assert [c, d][1..] == [d] && [d][1..] == [];
    assert Run(n3, [d], Apply(n3, d));
    assert Run(n2, [c, d], Apply(n3, d));
    assert Run(n1, [b, c, d], Apply(n3, d));
  }

  lemma {:induction false} ReadIsSteps(n: Node, s: u32)
    requires n.pc.Idle? && n.reader.Resting? && Get(n.nvs, n.ram, s).Some?
    ensures Run(n, [ReadUpper(s), ReadLower, ReadSlot, ReadDone],
                n.(given := n.given[s as nat := Get(n.nvs, n.ram, s).value]))
  {
    var n1, n2 := n.(reader := Bounded(s)), n.(reader := Ranged(s));
    var n3 := n.(reader := Fetched(s, Fetch(n.nvs, s)));
    assert n1 == Apply(n, ReadUpper(s)) && n2 == Apply(n1, ReadLower) && n3 == Apply(n2, ReadSlot);
    RunFour(n, ReadUpper(s), n1, ReadLower, n2, ReadSlot, n3, ReadDone);
  }

  // ---------------------------------------------------------------- the invariant

  /** The persisted counter trails the one in RAM by at most the append in progress, unless a
      meta write failed. */
  ghost predicate InvMeta(n: Node) {
    && ReadFormat(n.nvs) == FORMAT && ReadFloor(n.nvs) == n.ram.floor && n.base <= n.ram.floor
    && n.Next() == n.base + |n.log|
    && n.base <= n.Committed() <= n.Next()
    && (n.clean ==> n.Committed() == if n.pc.Bumped? then n.Next() - 1 else n.Next())
  }

  ghost predicate InvPc(n: Node) {
    match n.pc
    case Idle => true
    case Stamped(r) => Stampable(n, r)
    case Written(r) => Stampable(n, r) && Fetch(n.nvs, r.seqNo) == Some(r)
    case Bumped(_) => n.log != []
  }

  ghost predicate Stampable(n: Node, r: Record) {
    r.seqNo == n.ram.meta.nextSeq && n.ram.meta.baseSec <= r.ts <= Now(n.ram, n.uptimeMs)
  }

  ghost predicate InvLog(n: Node) {
    && (forall i :: 0 <= i < |n.log| ==> n.log[i].seqNo == n.base + i && n.log[i].ts <= n.ram.meta.baseSec)
    && (forall i, j :: 0 <= i < j < |n.log| ==> n.log[i].ts <= n.log[j].ts)
    && (forall i :: 0 <= i < |n.log| && n.base + i < n.Committed() ==> n.log[i].ts <= ReadMeta(n.nvs).baseSec)
    && n.ram.meta.baseSec <= Now(n.ram, n.uptimeMs)
  }

  ghost predicate Logged(n: Node, s: nat, r: Record) {
    n.base <= s < n.base + |n.log| && r == n.log[s - n.base]
  }

  /** A slot holds the logged record of its seq, or one that was never committed. */
  ghost predicate GoodEntry(n: Node, id: nat, q: Record) {
    && id == Slot(q.seqNo) && n.base <= q.seqNo
    && (q.seqNo < n.Next() ==> Logged(n, q.seqNo, q))
    && (n.clean ==> q.seqNo <= n.Committed())
  }

  ghost predicate InvSlots(n: Node) {
    forall id :: id in n.nvs && n.nvs[id].RecordEntry? ==> GoodEntry(n, id, n.nvs[id].rec)
  }

  /** No slot of the claimed window is empty, and none holds anything older than its seq. */
  ghost predicate InvWindow(n: Node) {
    forall s: nat :: n.base <= s < n.Next() && n.Next() <= s + CAPACITY
      ==> Fetch(n.nvs, s).Some? && s <= Fetch(n.nvs, s).value.seqNo
  }

  ghost predicate InvReader(n: Node) {
    match n.reader
    case Resting => true
    case Bounded(s) => s < n.Next()
    case Ranged(s) => n.ram.floor <= s < n.ram.meta.nextSeq
    case Fetched(s, got) =>
      && n.ram.floor <= s
      && (Hit(s, got) ==> Logged(n, s, got.value) && (n.clean ==> s < n.Committed()))
      && (!Hit(s, got) && n.clean ==> s + CAPACITY <= n.Next())
  }

  ghost predicate InvGiven(n: Node) {
    && (forall s :: s in n.given ==> n.ram.floor <= s)
    && (n.clean ==> forall s :: s in n.given ==> Logged(n, s, n.given[s]) && s < n.Committed())
  }

  ghost predicate Inv(n: Node) {
    InvMeta(n) && InvPc(n) && InvLog(n) && InvSlots(n) && InvWindow(n) && InvReader(n) && InvGiven(n)
  }

  lemma {:induction false} InvStart(flash: Nvs, done: nat)
    requires ReadFormat(flash) != FORMAT && done <= 4
    ensures Inv(Start(flash, done))
  {
    BootAfterCut(flash, done);
  }

  /** What readers saw and hold stays true while the log and the counters only grow. */
  lemma HistoryStays(n: Node, n': Node)
    requires Inv(n) && n'.base == n.base && n.log <= n'.log && (n'.clean ==> n.clean)
    requires n'.ram.floor == n.ram.floor
    requires n.Committed() <= n'.Committed() && n.Next() <= n'.Next()
    ensures n'.given == n.given ==> InvGiven(n')
    ensures n'.reader == n.reader ==> InvReader(n')
  {}

  lemma LogIncrement(n: Node)
    requires Inv(n) && Enabled(n, Increment)
    ensures InvLog(Apply(n, Increment))
  {}

  lemma {:induction false} FlashRecordOk(n: Node)
    requires Inv(n) && n.pc.Stamped?
    ensures InvSlots(Apply(n, RecordOk)) && InvWindow(Apply(n, RecordOk))
  {
    var n', r := Apply(n, RecordOk), n.pc.rec;
    forall id | id in n'.nvs && n'.nvs[id].RecordEntry?
      ensures GoodEntry(n', id, n'.nvs[id].rec)
    {
      if id != Slot(r.seqNo) { assert GoodEntry(n, id, n.nvs[id].rec); }
    }
    forall s: nat | n.base <= s < n.Next() <= s + CAPACITY
      ensures Fetch(n'.nvs, s).Some? && s <= Fetch(n'.nvs, s).value.seqNo
    {
      assert Fetch(n.nvs, s).Some?;
    }
  }

  lemma {:induction false} StepRecordOk(n: Node)
    requires Inv(n) && n.pc.Stamped?
    ensures Inv(Apply(n, RecordOk))
  {
    FlashRecordOk(n);
    HistoryStays(n, Apply(n, RecordOk));
    assert InvMeta(Apply(n, RecordOk));
  }

  lemma FlashIncrement(n: Node)
    requires Inv(n) && Enabled(n, Increment)
    ensures InvSlots(Apply(n, Increment)) && InvWindow(Apply(n, Increment))
  {}

  lemma {:induction false} StepIncrement(n: Node)
    requires Inv(n) && Enabled(n, Increment)
    ensures Inv(Apply(n, Increment))
  {
    FlashIncrement(n);
    LogIncrement(n);
    HistoryStays(n, Apply(n, Increment));
    assert InvMeta(Apply(n, Increment));
  }

  lemma {:induction false} FlashMetaOk(n: Node)
    requires Inv(n) && n.pc.Bumped?
    ensures InvSlots(Apply(n, MetaOk)) && InvWindow(Apply(n, MetaOk))
  {
    var n' := Apply(n, MetaOk);
    forall id | id in n'.nvs && n'.nvs[id].RecordEntry?
      ensures GoodEntry(n', id, n'.nvs[id].rec)
    {
      assert GoodEntry(n, id, n.nvs[id].rec);
    }
    forall s: nat | n.base <= s < n'.Next() <= s + CAPACITY
      ensures Fetch(n'.nvs, s).Some? && s <= Fetch(n'.nvs, s).value.seqNo
    {
      assert Fetch(n.nvs, s).Some?;
    }
  }

  lemma {:induction false} StepMetaOk(n: Node)
    requires Inv(n) && n.pc.Bumped?
    ensures Inv(Apply(n, MetaOk))
  {
    FlashMetaOk(n);
    HistoryStays(n, Apply(n, MetaOk));
    assert InvMeta(Apply(n, MetaOk));
  }

  lemma {:induction false} StepReadSlot(n: Node)
    requires Inv(n) && Enabled(n, ReadSlot)
    ensures Inv(Apply(n, ReadSlot))
  {
    var n' := Apply(n, ReadSlot);
    FetchVerdict(n, n.reader.s);
    SameFlash(n, n');
    HistoryStays(n, n');
    assert n'.log == n.log && n'.ram == n.ram && n'.nvs == n.nvs;
    assert InvMeta(n') && InvPc(n') && InvReader(n');
  }

  /** What the slot of a seq tells while no append is under way. */
  lemma FetchVerdict(n: Node, s: nat)
    requires Inv(n) && n.pc.Idle? && n.base <= s < n.Next()
    ensures var got := Fetch(n.nvs, s);
            && (Hit(s, got) ==> Logged(n, s, got.value))
            && (!Hit(s, got) && n.clean ==> s + CAPACITY <= n.Next())
            && (!Hit(s, got) && n.clean && s + CAPACITY == n.Next() ==> Hit(n.Next(), got))
  {}

  lemma SameFlash(n: Node, n': Node)
    requires Inv(n) && InvMeta(n')
    requires n'.nvs == n.nvs && n'.log == n.log && n'.base == n.base && (n'.clean ==> n.clean)
    ensures InvSlots(n') && InvWindow(n')
  {}

  lemma {:induction false} FlashPowerCycle(n: Node)
    requires Inv(n)
    ensures InvSlots(Apply(n, PowerCycle)) && InvWindow(Apply(n, PowerCycle))
  {
    var n' := Apply(n, PowerCycle);
    forall id | id in n'.nvs && n'.nvs[id].RecordEntry?
      ensures GoodEntry(n', id, n'.nvs[id].rec)
    {
      assert GoodEntry(n, id, n.nvs[id].rec);
    }
    forall s: nat | n.base <= s < n'.Next() <= s + CAPACITY
      ensures Fetch(n'.nvs, s).Some? && s <= Fetch(n'.nvs, s).value.seqNo
    {
      WindowDeep(n, s);
    }
  }

  /** A cut loses exactly the log past the persisted counter, and every slot still holds what
      the invariant says of it. */
  lemma {:induction false} StepPowerCycle(n: Node)
    requires Inv(n)
    ensures Inv(Apply(n, PowerCycle))
    ensures Apply(n, PowerCycle).log == n.log[..n.Committed() - n.base]
  {
    FlashPowerCycle(n);
    GivenPowerCycle(n);
    assert InvMeta(Apply(n, PowerCycle)) && InvLog(Apply(n, PowerCycle));
  }

  lemma GivenPowerCycle(n: Node)
    requires Inv(n)
    ensures InvGiven(Apply(n, PowerCycle))
  {}

  /** Slots below the window were overwritten by something newer, however far RAM ran ahead. */
  lemma {:induction false} WindowDeep(n: Node, s: nat)
    requires InvMeta(n) && InvWindow(n) && n.base <= s < n.Next()
    ensures Fetch(n.nvs, s).Some? && s <= Fetch(n.nvs, s).value.seqNo
    decreases n.Next() - s
  {
    if n.Next() <= s + CAPACITY {
    } else {
      WindowDeep(n, s + CAPACITY);
      assert Slot(s) == Slot(s + CAPACITY);
    }
  }

  /** Steps that touch neither flash nor counter. */
  lemma {:induction false} StepQuiet(n: Node, a: Action)
    requires Inv(n) && Enabled(n, a) && (a.Tick? || a.Lock? || a.RecordFail? || a.MetaFail?)
    ensures Inv(Apply(n, a))
  {
    var n' := Apply(n, a);
    SameFlash(n, n');
    HistoryStays(n, n');
    assert n'.log == n.log && n'.ram == n.ram && n'.nvs == n.nvs;
  }

  lemma {:induction false} StepReader(n: Node, a: Action)
    requires Inv(n) && Enabled(n, a) && (a.ReadUpper? || a.ReadLower?)
    ensures Inv(Apply(n, a))
  {
    var n' := Apply(n, a);
    SameFlash(n, n');
    HistoryStays(n, n');
    assert n'.log == n.log && n'.ram == n.ram && n'.nvs == n.nvs;
  }

  lemma {:induction false} StepReadDone(n: Node)
    requires Inv(n) && n.reader.Fetched?
    ensures Inv(Apply(n, ReadDone))
  {
    var n' := Apply(n, ReadDone);
    SameFlash(n, n');
    assert n'.log == n.log && n'.ram == n.ram && n'.nvs == n.nvs;
    assert InvMeta(n') && InvPc(n') && InvReader(n');
    if n.clean {
      forall s | s in n'.given ensures Logged(n', s, n'.given[s]) && s < n'.Committed() {
        if s in n.given && n'.given[s] == n.given[s] { assert Logged(n, s, n.given[s]); }
      }
    }
  }

  lemma {:induction false} InvStep(n: Node, a: Action)
    requires Inv(n) && Enabled(n, a)
    ensures Inv(Apply(n, a))
  {
    match a
    case RecordOk => StepRecordOk(n);
    case Increment => StepIncrement(n);
    case MetaOk => StepMetaOk(n);
    case ReadSlot => StepReadSlot(n);
    case PowerCycle => StepPowerCycle(n);
    case Tick(_) => StepQuiet(n, a);
    case Lock(_) => StepQuiet(n, a);
    case RecordFail => StepQuiet(n, a);
    case MetaFail => StepQuiet(n, a);
    case ReadUpper(_) => StepReader(n, a);
    case ReadLower => StepReader(n, a);
    case ReadDone => StepReadDone(n);
  }

  /** The invariant holds in every state of every run, wherever the format change before it was
      cut. */
  lemma {:induction false} InvRun(n: Node, acts: seq<Action>, n': Node)
    requires Inv(n) && Run(n, acts, n')
    ensures Inv(n')
    decreases |acts|
  {
    if acts == [] {
    } else {
      InvStep(n, acts[0]);
      InvRun(Apply(n, acts[0]), acts[1..], n');
    }
  }

  // ---------------------------------------------------------------- what store_get promises

  /** The ring refines the append-only log. In every reachable state a record is returned only
      as it was logged; and while no meta write has failed and no append is under way,
      store_get succeeds for exactly the seqs it claims, but for the one whose slot holds a
      record that a cut left uncommitted. */
  lemma {:induction false} GetRefinesLog(n: Node, s: u32)
    requires Inv(n)
    ensures var got := Get(n.nvs, n.ram, s);
            && (got.Some? ==> Logged(n, s, got.value))
            && (n.pc.Idle? && n.clean ==>
                (got.Some? <==> Oldest(n.ram) <= s < n.ram.meta.nextSeq
                                && !(s as nat + CAPACITY == n.Next() && Hit(n.Next(), Fetch(n.nvs, s)))))
  {
    if n.pc.Idle? && n.base <= s < n.ram.meta.nextSeq { FetchVerdict(n, s); }
  }

  /** Timestamps never decrease along the records that can be read, across all reboots. */
  lemma TimeOrder(n: Node, s: u32, t: u32)
    requires Inv(n) && s <= t && Get(n.nvs, n.ram, s).Some? && Get(n.nvs, n.ram, t).Some?
    ensures Get(n.nvs, n.ram, s).value.ts <= Get(n.nvs, n.ram, t).value.ts
  {}

  // ---------------------------------------------------------------- over whole runs

  ghost predicate Keeps(n: Node, n': Node) {
    && n'.base == n.base && n'.ram.floor == n.ram.floor
    && n.Committed() <= n'.Committed() && (n'.clean ==> n.clean)
    && |n.log| >= n.Committed() - n.base >= 0 && n.log[..n.Committed() - n.base] <= n'.log
  }

  lemma StepKeeps(n: Node, a: Action)
    requires Inv(n) && Enabled(n, a)
    ensures Keeps(n, Apply(n, a))
  {}

  /** Through appends, errors, cuts and reboots of any kind the persisted next_seq never
      decreases and no committed record is ever lost from the log or replaced in it. */
  lemma {:induction false} RunKeeps(n: Node, acts: seq<Action>, n': Node)
    requires Inv(n) && Run(n, acts, n')
    ensures Keeps(n, n')
    decreases |acts|
  {
    if acts == [] {
    } else {
      var m := Apply(n, acts[0]);
      InvStep(n, acts[0]);
      StepKeeps(n, acts[0]);
      RunKeeps(m, acts[1..], n');
      var k := n.Committed() - n.base;
      assert n.log[..k] <= m.log[..m.Committed() - m.base];
    }
  }

  /** rec was returned for s, and s is committed to it. */
  ghost predicate Settled(n: Node, s: nat, rec: Record) {
    s in n.given && n.given[s] == rec && Logged(n, s, rec) && s < n.Committed()
  }

  lemma {:induction false} StepSettled(n: Node, a: Action, s: nat, rec: Record)
    requires Inv(n) && Enabled(n, a) && Settled(n, s, rec)
    ensures Settled(Apply(n, a), s, rec)
  {
    StepKeeps(n, a);
    InvStep(n, a);
    var (n', k) := (Apply(n, a), n.Committed() - n.base);
    assert n.log[..k][s - n.base] == n'.log[s - n.base];
  }

  /** A returned seq whose record is committed keeps it for ever, through errors, cuts and
      reboots of any kind: no later read returns anything else for it, and no later append is
      given it. While no meta write has failed that is every seq ever returned. */
  lemma {:induction false} NoReuse(n: Node, acts: seq<Action>, n': Node, s: nat)
    requires Inv(n) && Run(n, acts, n') && s in n.given
    requires n.clean || Settled(n, s, n.given[s])
    ensures Settled(n', s, n.given[s])
    ensures n'.pc.Stamped? ==> s < n'.pc.rec.seqNo
    decreases |acts|
  {
    if acts == [] {
    } else {
      StepSettled(n, acts[0], s, n.given[s]);
      InvStep(n, acts[0]);
      NoReuse(Apply(n, acts[0]), acts[1..], n', s);
    }
  }

  /** With failed meta writes, exactly when: a returned seq that still has its record keeps it
      in every run from here on if and only if it is below the persisted counter. */
  lemma {:induction false} ReturnedKept(n: Node, s: nat)
    requires Inv(n) && s in n.given && Logged(n, s, n.given[s])
    ensures s < n.Committed()
       <==> forall n' :: Reaches(n, n') ==> s in n'.given && n'.given[s] == n.given[s]
  {
    if s < n.Committed() {
      forall n' | Reaches(n, n') ensures s in n'.given && n'.given[s] == n.given[s] {
        var acts :| Run(n, acts, n');
        NoReuse(n, acts, n', s);
      }
    } else {
      var acts, n' := Reuse(n, s);
      assert Reaches(n, n');
    }
  }

  lemma {:induction false} RunCat(n: Node, a: seq<Action>, m: Node, b: seq<Action>, n': Node)
    requires Run(n, a, m) && Run(m, b, n')
    ensures Run(n, a + b, n')
    decreases |a|
  {
    if a == [] {
      assert a + b == b;
    } else {
      assert (a + b)[1..] == a[1..] + b;
      RunCat(Apply(n, a[0]), a[1..], m, b, n');
    }
  }

  lemma RunOne(n: Node, a: Action)
    requires Enabled(n, a)
    ensures Run(n, [a], Apply(n, a))
  {}

  /** An append, its meta write good or not, and a read of what it stored. */
  lemma {:induction false} AppendThenRead(n: Node, rec: Record, metaGood: bool) returns (acts: seq<Action>, n': Node)
    requires Inv(n) && n.pc.Idle? && n.reader.Resting? && Enabled(n, Lock(rec)) && n.ram.floor as nat <= n.Next()
    ensures Run(n, acts, n')
    ensures var out := Stamp(n.ram, n.uptimeMs, rec);
            && n'.given == n.given[out.seqNo as nat := out] && n'.pc.Idle? && n'.reader.Resting?
            && n'.Committed() == if metaGood then n.Next() + 1 else n.Committed()
    // what comes back is what was appended, under the next seq, at the clock of the append
    ensures n.Next() in n'.given
    ensures var out := n'.given[n.Next()];
            && out.seqNo as nat == n.Next() && out.(seqNo := rec.seqNo, ts := rec.ts) == rec
            && var ms := 1000 * (out.ts as int - n.ram.bootOffset as int); ms <= n.uptimeMs < ms + 1000
  {
    StampSets(n.ram, n.uptimeMs, rec);
    var out := Stamp(n.ram, n.uptimeMs, rec);
    var (nvs, ram) := (PutRecord(n.nvs, out), Bump(n.ram, out));
    var m := n.(ram := ram, log := n.log + [out], nvs := if metaGood then PutMeta(nvs, ram) else nvs,
                clean := n.clean && metaGood);
    AppendIsSteps(n, rec, metaGood);
    assert Get(m.nvs, m.ram, out.seqNo) == Some(out);
    ReadIsSteps(m, out.seqNo);
    n' := m.(given := m.given[out.seqNo as nat := out]);
    acts := [Lock(rec), RecordOk, Increment, if metaGood then MetaOk else MetaFail];
    RunCat(n, acts, m, [ReadUpper(out.seqNo), ReadLower, ReadSlot, ReadDone], n');
    acts := acts + [ReadUpper(out.seqNo), ReadLower, ReadSlot, ReadDone];
  }

  /** Appends until s is the next seq. */
  lemma {:induction false} AppendUpTo(n: Node, s: nat, rec: Record) returns (acts: seq<Action>, n': Node)
    requires Inv(n) && n.pc.Idle? && n.reader.Resting? && Now(n.ram, n.uptimeMs) < 0x1_0000_0000
    requires n.Next() <= s && s + 1 < 0x1_0000_0000
    ensures Run(n, acts, n') && Inv(n') && n'.pc.Idle? && n'.reader.Resting?
    ensures n'.Next() == s && n'.ram.floor == n.ram.floor && Now(n'.ram, n'.uptimeMs) < 0x1_0000_0000
    decreases s - n.Next()
  {
    if n.Next() == s {
      acts, n' := [], n;
    } else {
      AppendIsSteps(n, rec, true);
      var out := Stamp(n.ram, n.uptimeMs, rec);
      var ram := Bump(n.ram, out);
      var m := n.(ram := ram, log := n.log + [out], nvs := PutMeta(PutRecord(n.nvs, out), ram));
      InvRun(n, [Lock(rec), RecordOk, Increment, MetaOk], m);
      acts, n' := AppendUpTo(m, s, rec);
      RunCat(n, [Lock(rec), RecordOk, Increment, MetaOk], m, acts, n');
      acts := [Lock(rec), RecordOk, Increment, MetaOk] + acts;
    }
  }

  /** Power lost while a returned seq is not below the persisted counter: after the reboot the
      appends reach it again, and a different record is returned for it. */
  lemma {:induction false} Reuse(n: Node, s: nat) returns (acts: seq<Action>, n': Node)
    requires Inv(n) && s in n.given && Logged(n, s, n.given[s]) && n.Committed() <= s
    ensures Run(n, acts, n') && s in n'.given && n'.given[s] != n.given[s]
  {
    var a := n.given[s];
    var b := a.(headcount := if a.headcount == 0 then 1 else 0);
    var r := Apply(n, PowerCycle);
    InvStep(n, PowerCycle);
    RunOne(n, PowerCycle);
    var up, m := AppendUpTo(r, s, a);
    RunCat(n, [PowerCycle], r, up, m);
    acts, n' := AppendThenRead(m, b, true);
    RunCat(n, [PowerCycle] + up, m, acts, n');
    acts := [PowerCycle] + up + acts;
  }

  /** So one failed meta write breaks the promise from any idle state that can return what it
      appends: a record is returned, power fails, and its seq goes to another record, which is
      returned too. */
  lemma {:induction false} MetaErrorReuses(n: Node, a: Record, b: Record)
    returns (acts: seq<Action>, acts': seq<Action>, m: Node, m': Node)
    requires Inv(n) && n.clean && n.pc.Idle? && n.reader.Resting? && Enabled(n, Lock(a))
    requires n.ram.floor as nat <= n.Next() && a.headcount != b.headcount
    ensures Run(n, acts, m) && Run(m, acts', m')
    ensures n.Next() in m.given && n.Next() in m'.given && m.given[n.Next()] != m'.given[n.Next()]
  {
    acts, m := AppendThenRead(n, a, false);
    InvRun(n, acts, m);
    RunKeeps(n, acts, m);
    var r := Apply(m, PowerCycle);
    InvStep(m, PowerCycle);
    StepPowerCycle(m);
    RunOne(m, PowerCycle);
    acts', m' := AppendThenRead(r, b, true);
    RunCat(m, [PowerCycle], r, acts', m');
    acts' := [PowerCycle] + acts';
  }

  /** A floor that a cut format change left above the counter hides what is appended below it:
      in no run is any of that readable, or ever returned. */
  lemma {:induction false} FloorHides(flash: Nvs, done: nat, acts: seq<Action>, n: Node, s: u32)
    requires ReadFormat(flash) != FORMAT && done <= 4 && Run(Start(flash, done), acts, n)
    requires s < Start(flash, done).ram.floor
    ensures Get(n.nvs, n.ram, s) == None && s as nat !in n.given
  {
    InvStart(flash, done);
    InvRun(Start(flash, done), acts, n);
    RunKeeps(Start(flash, done), acts, n);
  }

  // ---------------------------------------------------------------- what a dump selects

  /** In every reachable state the held window fits the 16-bit record count, so a dump selects
      exactly the held seqs from `first` on. */
  lemma DumpSelectsHeld(n: Node, first: u32, s: nat)
    requires Inv(n)
    ensures n.Next() <= Oldest(n.ram) as nat + CAPACITY
    ensures DumpRange(first, Oldest(n.ram), n.ram.meta.nextSeq).Has(s)
       <==> first <= s && Oldest(n.ram) <= s < n.ram.meta.nextSeq
  {}

  /** Two visits to one node: the window only moves forward. */
  lemma {:induction false} WindowForward(n: Node, acts: seq<Action>, n': Node)
    requires Inv(n) && Run(n, acts, n') && n'.clean && !n.pc.Bumped? && !n'.pc.Bumped?
    ensures n.Next() <= n'.Next() && Oldest(n.ram) <= Oldest(n'.ram)
  {
    InvRun(n, acts, n');
    RunKeeps(n, acts, n');
  }
}
