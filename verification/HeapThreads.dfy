/** kmalloc_common and kfree under preemption (src/memory.c:407-464, 502-541; src/sync.c:4-20): any number of
    threads run them at once, and a timer switch may come between any two steps. One step of a thread is one
    statement on shared memory: the xchg of get_mtx, one look at a table entry, one move of an entry, one write
    to count or size, or the store of clean_mtx. Addresses do not wrap here. */
module HeapThreads {
  import opened Machine
  import opened HeapTable

  datatype Op = Alloc(request: nat, align: bool) | Free(vaddr: nat)

  /** Where a thread stands. */
  datatype Pc =
    | Idle
    | Spin(op: Op)                                    // at the xchg of get_mtx
    | Align(op: Op, v: nat)                           // head of the do-while loop
    | Scan(op: Op, v: nat, top: int, overlap: bool)   // about to look at entry top
    | ShiftUp(op: Op, v: nat, top: int)               // about to move entry top up
    | Put(op: Op, v: nat)                             // about to write entry 0
    | CountUp(op: Op, v: nat)
    | SizeDown(op: Op, v: nat)
    | Enter(op: Op)                                   // kfree behind get_mtx
    | Seek(op: Op, i: nat)                            // about to compare entry i
    | ShiftDown(op: Op, idx: nat, size: nat, i: nat)  // about to move entry i + 1 down
    | SizeUp(op: Op, size: nat)
    | Leave(op: Op, ret: nat)                         // about to clear the lock

  /** One completed operation; the log is in the order in which the lock was given back. */
  datatype Event = Event(tid: nat, op: Op, ret: nat)

  /** What the lock protects. */
  datatype Memory = Memory(cells: Table, count: nat, size: u32)

  datatype State = State(mtx: bool, mem: Memory, pcs: seq<Pc>, log: seq<Event>)

  datatype Worked = Worked(mem: Memory, pc: Pc)

  function PutCell(cells: Table, i: nat, b: HeapBlock): Table {
    if i < |cells| then cells[i := b] else cells + [b]
  }

  function CellAt(cells: Table, i: nat): HeapBlock {
    if i < |cells| then cells[i] else HeapBlock(0, 0)
  }

  /** The next step of a thread inside kmalloc_common. */
  function AllocWork(m: Memory, pc: Pc): Worked {
    match pc
    case Align(op, v) => Worked(m, Scan(op, UpTo(op, v), m.count - 1, false))
    case Scan(op, v, i, overlap) =>
      if i < 0 then Worked(m, if overlap then Align(op, v) else ShiftUp(op, v, m.count - 1))
      else if Overlaps(CellAt(m.cells, i), v, RequestOf(op))
        then Worked(m, Scan(op, End(CellAt(m.cells, i)), i - 1, true))
      else Worked(m, Scan(op, v, i - 1, overlap))
    case ShiftUp(op, v, i) =>
      if i < 0 then Worked(m, Put(op, v))
      else Worked(m.(cells := PutCell(m.cells, i + 1, CellAt(m.cells, i))), ShiftUp(op, v, i - 1))
    case Put(op, v) => Worked(m.(cells := PutCell(m.cells, 0, HeapBlock(v, RequestOf(op)))), CountUp(op, v))
    case CountUp(op, v) => Worked(m.(count := m.count + 1), SizeDown(op, v))
    case SizeDown(op, v) => Worked(m.(size := Sub32(m.size, RequestOf(op))), Leave(op, v))
    case _ => Worked(m, pc)
  }

  /** The next step of a thread inside kfree. */
  function FreeWork(m: Memory, pc: Pc): Worked {
    match pc
    case Enter(op) => Worked(m, if VaddrOf(op) == 0 then Leave(op, 0) else Seek(op, 0))
    case Seek(op, i) =>
      if i >= m.count then Worked(m, Leave(op, 0))
      else if VaddrOf(op) == CellAt(m.cells, i).base then Worked(m, ShiftDown(op, i, CellAt(m.cells, i).size, i))
      else Worked(m, Seek(op, i + 1))
    case ShiftDown(op, idx, size, i) =>
      if i + 1 < m.count
      then Worked(m.(cells := PutCell(m.cells, i, CellAt(m.cells, i + 1))), ShiftDown(op, idx, size, i + 1))
      else Worked(m.(count := if m.count > 0 then m.count - 1 else 0), SizeUp(op, size))
    case SizeUp(op, size) => Worked(m.(size := Add32(m.size, size)), Leave(op, 0))
    case _ => Worked(m, pc)
  }

  function Work(m: Memory, pc: Pc): Worked {
    if !pc.Idle? && pc.op.Alloc? then AllocWork(m, pc) else FreeWork(m, pc)
  }

  /** The next step of thread `tid`; an idle thread calls `call`. */
  function Step(start: nat, s: State, tid: nat, call: Op): State
    requires tid < |s.pcs|
  {
    match s.pcs[tid]
    case Idle => s.(pcs := s.pcs[tid := Spin(call)])
    case Spin(op) =>
      if s.mtx then s
      else s.(mtx := true, pcs := s.pcs[tid := if op.Alloc? then Align(op, start + HEAP_HEADER) else Enter(op)])
    case Leave(op, ret) => s.(mtx := false, pcs := s.pcs[tid := Idle], log := s.log + [Event(tid, op, ret)])
    case _ =>
      var w := Work(s.mem, s.pcs[tid]);
      s.(mem := w.mem, pcs := s.pcs[tid := w.pc])
  }

  function UpTo(op: Op, v: nat): nat {
    AlignUpIs(op.Alloc? && op.align, v);
    AlignUp(op.Alloc? && op.align, v)
  }

  function RequestOf(op: Op): nat {
    if op.Alloc? then op.request else 0
  }

  function VaddrOf(op: Op): nat {
    if op.Free? then op.vaddr else 0
  }

  /** One turn of the scheduler: which thread steps, and what it calls if it is idle. */
  datatype Turn = Turn(tid: nat, call: Op)

  /** The state after a run; threads that do not exist do nothing. */
  function Run(start: nat, s: State, turns: seq<Turn>): State
    decreases |turns|
  {
    if turns == [] then s
    else
      var before := Run(start, s, turns[..|turns| - 1]);
      var turn := turns[|turns| - 1];
      if turn.tid < |before.pcs| then Step(start, before, turn.tid, turn.call) else before
  }

  // ---- the serial meaning of a log ------------------------------------------------------------------

  /** The table after one whole operation without interference. */
  function TableStep(t: Table, e: Event): Table {
    match e.op
    case Alloc(request, _) => [HeapBlock(e.ret, request)] + t
    case Free(vaddr) => Freed(t, vaddr)
  }

  function SizeStep(t: Table, size: u32, e: Event): u32 {
    match e.op
    case Alloc(request, _) => Sub32(size, request)
    case Free(vaddr) => if vaddr == 0 || FindBase(t, vaddr) == |t| then size
      else Add32(size, t[FindBase(t, vaddr)].size)
  }

  ghost predicate LegalStep(start: nat, t: Table, e: Event) {
    e.op.Alloc? ==> LeastFit(t, start + HEAP_HEADER, e.op.align, e.op.request, e.ret)
  }

  /** The table after the operations of a log, one after the other. */
  function TableOf(log: seq<Event>): Table {
    if log == [] then [] else TableStep(TableOf(log[..|log| - 1]), log[|log| - 1])
  }

  function SizeOf(size0: u32, log: seq<Event>): u32 {
    if log == [] then size0
    else SizeStep(TableOf(log[..|log| - 1]), SizeOf(size0, log[..|log| - 1]), log[|log| - 1])
  }

  /** Every allocation of the log returned the least address that fitted at its place in the serial order. */
  ghost predicate Legal(start: nat, log: seq<Event>) {
    forall j :: 0 <= j < |log| ==> LegalStep(start, TableOf(log[..j]), log[j])
  }

  lemma LegalNext(start: nat, log: seq<Event>, e: Event)
    requires Legal(start, log) && LegalStep(start, TableOf(log), e)
    ensures Legal(start, log + [e])
  {
    var log' := log + [e];
    forall j | 0 <= j < |log'| ensures LegalStep(start, TableOf(log'[..j]), log'[j]) {
      assert log'[..j] == if j < |log| then log[..j] else log;
    }
  }

  lemma LogNext(size0: u32, log: seq<Event>, e: Event)
    ensures TableOf(log + [e]) == TableStep(TableOf(log), e)
    ensures SizeOf(size0, log + [e]) == SizeStep(TableOf(log), SizeOf(size0, log), e)
  {
    assert (log + [e])[..|log|] == log;
  }

  /** Blocks allocated by a legal log never overlap, whichever threads asked for them. */
  lemma {:induction false} LegalApart(start: nat, log: seq<Event>)
    requires Legal(start, log)
    ensures Apart(TableOf(log))
  {
    if log != [] {
      var rest, e := log[..|log| - 1], log[|log| - 1];
      assert Legal(start, rest) by {
        forall j | 0 <= j < |rest| ensures LegalStep(start, TableOf(rest[..j]), rest[j]) {
          assert rest[..j] == log[..j];
        }
      }
      LegalApart(start, rest);
      assert LegalStep(start, TableOf(log[..|log| - 1]), log[|log| - 1]);
      match e.op
      case Alloc(request, _) => ApartNew(TableOf(rest), HeapBlock(e.ret, request));
      case Free(vaddr) =>
        if vaddr != 0 && FindBase(TableOf(rest), vaddr) < |TableOf(rest)| {
          ApartWithout(TableOf(rest), FindBase(TableOf(rest), vaddr));
        }
    }
  }

  /** Free bytes plus live bytes do not change along a log. */
  lemma {:induction false} LegalBytes(size0: u32, log: seq<Event>)
    ensures BytesOf(SizeOf(size0, log), TableOf(log)) == size0
  {
    if log != [] {
      var rest, e := log[..|log| - 1], log[|log| - 1];
      LegalBytes(size0, rest);
      match e.op
      case Alloc(request, _) => BytesAfterAlloc(SizeOf(size0, rest), TableOf(rest), HeapBlock(e.ret, request));
      case Free(vaddr) =>
        if vaddr != 0 && FindBase(TableOf(rest), vaddr) < |TableOf(rest)| {
          BytesAfterFree(SizeOf(size0, rest), TableOf(rest), FindBase(TableOf(rest), vaddr));
        }
    }
  }

  // ---- the invariant ---------------------------------------------------------------------------------

  /** The thread is between get_mtx and clean_mtx. */
  predicate Holds(pc: Pc) {
    !pc.Idle? && !pc.Spin?
  }

  /** The shared table is `t`, its entries in place. */
  predicate Stored(m: Memory, t: Table, size: u32) {
    m.count == |t| <= |m.cells| && m.cells[..|t|] == t && m.size == size
  }

  /** How far the thread in the critical section has come from the table `t` it found. */
  ghost predicate Progress(start: nat, m: Memory, t: Table, size: u32, pc: Pc) {
    var from := start + HEAP_HEADER;
    match pc
    case Idle => false
    case Spin(_) => false
    case Align(op, v) =>
      op.Alloc? && Stored(m, t, size) && NoneBelow(t, from, op.align, op.request, v)
    case Scan(op, v, i, overlap) =>
      && op.Alloc? && Stored(m, t, size) && -1 <= i < |t| && NoneBelow(t, from, op.align, op.request, v)
      && (!overlap ==> Aligned(op.align, v) && forall k :: i < k < |t| ==> !Overlaps(t[k], v, op.request))
    case ShiftUp(op, v, i) =>
      && op.Alloc? && LeastFit(t, from, op.align, op.request, v) && -1 <= i < |t| == m.count && m.size == size
      && |m.cells| >= |t| && (i < |t| - 1 ==> |m.cells| > |t|)
      && (forall k :: 0 <= k <= i ==> m.cells[k] == t[k]) && (forall k :: i < k < |t| ==> m.cells[k + 1] == t[k])
    case Put(op, v) =>
      && op.Alloc? && LeastFit(t, from, op.align, op.request, v) && m.count == |t| && m.size == size
      && (|t| > 0 ==> |m.cells| > |t|) && (forall k :: 0 <= k < |t| ==> m.cells[k + 1] == t[k])
    case CountUp(op, v) =>
      && op.Alloc? && LeastFit(t, from, op.align, op.request, v) && m.count == |t| && m.size == size
      && |m.cells| > |t| && m.cells[..|t| + 1] == [HeapBlock(v, op.request)] + t
    case SizeDown(op, v) =>
      op.Alloc? && LeastFit(t, from, op.align, op.request, v) && Stored(m, [HeapBlock(v, op.request)] + t, size)
    case Enter(op) => op.Free? && Stored(m, t, size)
    case Seek(op, i) =>
      op.Free? && op.vaddr != 0 && Stored(m, t, size) && i <= |t| && FindBase(t, op.vaddr) >= i
    case ShiftDown(op, idx, freed, i) =>
      && op.Free? && op.vaddr != 0 && idx <= i < |t| == m.count <= |m.cells| && m.size == size
      && FindBase(t, op.vaddr) == idx && freed == t[idx].size
      && (forall k :: 0 <= k < idx ==> m.cells[k] == t[k]) && (forall k :: idx <= k < i ==> m.cells[k] == t[k + 1])
      && (forall k :: i <= k < |t| ==> m.cells[k] == t[k])
    case SizeUp(op, freed) =>
      && op.Free? && op.vaddr != 0 && FindBase(t, op.vaddr) < |t| && freed == t[FindBase(t, op.vaddr)].size
      && Stored(m, Freed(t, op.vaddr), size)
    case Leave(op, ret) =>
      LegalStep(start, t, Event(0, op, ret))
        && Stored(m, TableStep(t, Event(0, op, ret)), SizeStep(t, size, Event(0, op, ret)))
  }

  /** The lock, the holder and the table fit together. */
  ghost predicate InvIs(start: nat, size0: u32, s: State) {
    && Legal(start, s.log)
    && (forall i, j :: 0 <= i < |s.pcs| && 0 <= j < |s.pcs| && Holds(s.pcs[i]) && Holds(s.pcs[j]) ==> i == j)
    && (forall i :: 0 <= i < |s.pcs| && Holds(s.pcs[i]) ==>
        s.mtx && Progress(start, s.mem, TableOf(s.log), SizeOf(size0, s.log), s.pcs[i]))
    && (!s.mtx ==> Stored(s.mem, TableOf(s.log), SizeOf(size0, s.log)))
    && (s.mtx ==> exists i :: 0 <= i < |s.pcs| && Holds(s.pcs[i]))
  }

  ghost predicate Inv(start: nat, size0: u32, s: State) {
    (if InvIs(start, size0, s) then Clean else Corrupt).Clean?
  }

  /** One step inside kmalloc_common. */
  lemma AllocProgress(start: nat, m: Memory, t: Table, size: u32, pc: Pc)
    requires Holds(pc) && !pc.Leave? && pc.op.Alloc? && Progress(start, m, t, size, pc)
    ensures var w := AllocWork(m, pc); Holds(w.pc) && Progress(start, w.mem, t, size, w.pc)
  {
    match pc
    case Align(op, v) =>
      AlignUpIs(op.align, v);
    case Scan(op, v, i, overlap) =>
      if i >= 0 {
        assert m.cells[..|t|][i] == t[i];
        if Overlaps(t[i], v, op.request) {
          BumpKeeps(t, start + HEAP_HEADER, op.align, op.request, v, i);
        }
      }
    case Put(op, v) =>
      PutFront(m, t, HeapBlock(v, op.request));
    case _ =>
  }

  lemma PutFront(m: Memory, t: Table, b: HeapBlock)
    requires |t| > 0 ==> |m.cells| > |t|
    requires forall k :: 0 <= k < |t| ==> m.cells[k + 1] == t[k]
    ensures |PutCell(m.cells, 0, b)| > |t| && PutCell(m.cells, 0, b)[..|t| + 1] == [b] + t
  {
  }

  /** One step inside kfree. */
  lemma FreeProgress(start: nat, m: Memory, t: Table, size: u32, pc: Pc)
    requires Holds(pc) && !pc.Leave? && pc.op.Free? && Progress(start, m, t, size, pc)
    ensures var w := FreeWork(m, pc); Holds(w.pc) && Progress(start, w.mem, t, size, w.pc)
  {
    match pc
    case Seek(op, i) =>
      SeekStep(t, op.vaddr, i);
      assert i < |t| ==> m.cells[..|t|][i] == t[i];
    case ShiftDown(op, idx, freed, i) =>
      if i + 1 == m.count {
        assert m.cells[..|t| - 1] == Without(t, idx);
      }
    case _ =>
  }

  /** The search for a block to free goes on behind an entry that does not match. */
  lemma {:induction false} SeekStep(t: Table, vaddr: nat, i: nat)
    requires i <= FindBase(t, vaddr)
    ensures i == |t| ==> FindBase(t, vaddr) == |t|
    ensures i < |t| ==> (FindBase(t, vaddr) == i <==> t[i].base == vaddr)
  {
    if i > 0 {
      SeekStep(t[1..], vaddr, i - 1);
    }
  }

  /** A step of the thread in the critical section, short of leaving it. */
  lemma HolderStep(start: nat, size0: u32, s: State, tid: nat, call: Op)
    requires Inv(start, size0, s) && tid < |s.pcs| && Holds(s.pcs[tid]) && !s.pcs[tid].Leave?
    ensures Inv(start, size0, Step(start, s, tid, call))
  {
    var t, size, pc := TableOf(s.log), SizeOf(size0, s.log), s.pcs[tid];
    if pc.op.Alloc? {
      AllocProgress(start, s.mem, t, size, pc);
    } else {
      FreeProgress(start, s.mem, t, size, pc);
    }
    var w := Work(s.mem, pc);
    var s' := Step(start, s, tid, call);
    assert s' == s.(mem := w.mem, pcs := s.pcs[tid := w.pc]);
    HolderOnly(start, size0, s, tid, w);
  }

  lemma HolderOnly(start: nat, size0: u32, s: State, tid: nat, w: Worked)
    requires Inv(start, size0, s) && tid < |s.pcs| && Holds(s.pcs[tid]) && Holds(w.pc)
    requires Progress(start, w.mem, TableOf(s.log), SizeOf(size0, s.log), w.pc)
    ensures Inv(start, size0, s.(mem := w.mem, pcs := s.pcs[tid := w.pc]))
  {
    var s' := s.(mem := w.mem, pcs := s.pcs[tid := w.pc]);
    assert Holds(s'.pcs[tid]);
    assert InvIs(start, size0, s');
  }

  /** Taking the lock. */
  lemma EnterStep(start: nat, size0: u32, s: State, tid: nat, call: Op)
    requires Inv(start, size0, s) && tid < |s.pcs| && s.pcs[tid].Spin? && !s.mtx
    ensures Inv(start, size0, Step(start, s, tid, call))
  {
    var s' := Step(start, s, tid, call);
    assert Holds(s'.pcs[tid]);
    assert InvIs(start, size0, s');
  }

  /** Giving the lock back: the operation joins the log. */
  lemma LeaveStep(start: nat, size0: u32, s: State, tid: nat, call: Op)
    requires Inv(start, size0, s) && tid < |s.pcs| && s.pcs[tid].Leave?
    ensures Inv(start, size0, Step(start, s, tid, call))
  {
    var s', pc := Step(start, s, tid, call), s.pcs[tid];
    var e := Event(tid, pc.op, pc.ret);
    LegalNext(start, s.log, e);
    LogNext(size0, s.log, e);
    assert InvIs(start, size0, s');
  }

  /** A thread outside of the critical section that does not enter it touches nothing shared. */
  lemma OtherStep(start: nat, size0: u32, s: State, tid: nat, pc: Pc)
    requires Inv(start, size0, s) && tid < |s.pcs| && !Holds(s.pcs[tid]) && !Holds(pc)
    ensures Inv(start, size0, s.(pcs := s.pcs[tid := pc]))
  {
    var s' := s.(pcs := s.pcs[tid := pc]);
    if s.mtx {
      var h :| 0 <= h < |s.pcs| && Holds(s.pcs[h]);
      assert Holds(s'.pcs[h]);
    }
    assert InvIs(start, size0, s');
  }

  /** Every step of every thread keeps the invariant. */
  lemma StepKeeps(start: nat, size0: u32, s: State, tid: nat, call: Op)
    requires Inv(start, size0, s) && tid < |s.pcs|
    ensures Inv(start, size0, Step(start, s, tid, call))
  {
    match s.pcs[tid]
    case Idle => OtherStep(start, size0, s, tid, Spin(call));
    case Spin(op) =>
      if !s.mtx {
        EnterStep(start, size0, s, tid, call);
      }
    case Leave(_, _) => LeaveStep(start, size0, s, tid, call);
    case _ => HolderStep(start, size0, s, tid, call);
  }

  ghost predicate Initial(s: State) {
    !s.mtx && s.mem.count == 0 && s.log == [] && forall i :: 0 <= i < |s.pcs| ==> s.pcs[i] == Idle
  }

  lemma {:induction false} RunKeeps(start: nat, s: State, turns: seq<Turn>)
    requires Initial(s)
    ensures Inv(start, s.mem.size, Run(start, s, turns)) && |Run(start, s, turns).pcs| == |s.pcs|
  {
    if turns == [] {
      assert InvIs(start, s.mem.size, s);
    } else {
      var rest, turn := turns[..|turns| - 1], turns[|turns| - 1];
      RunKeeps(start, s, rest);
      if turn.tid < |s.pcs| {
        StepKeeps(start, s.mem.size, Run(start, s, rest), turn.tid, turn.call);
      }
    }
  }

  // ---- what holds in every interleaving ----------------------------------------------------------------

  /** At most one thread is between get_mtx and clean_mtx, and only while the lock is taken. */
  lemma MutualExclusion(start: nat, s: State, turns: seq<Turn>, i: nat, j: nat)
    requires Initial(s) && i < |s.pcs| && j < |s.pcs|
    ensures |Run(start, s, turns).pcs| == |s.pcs|
    ensures var r := Run(start, s, turns); Holds(r.pcs[i]) && Holds(r.pcs[j]) ==> i == j && r.mtx
  {
    RunKeeps(start, s, turns);
  }

  /** Whenever the lock is free, the table is what the completed operations give in the serial order of their
      releases: every allocation got the least address that fitted, no two live blocks overlap, no byte is lost. */
  lemma Serializable(start: nat, s: State, turns: seq<Turn>)
    requires Initial(s)
    ensures var r := Run(start, s, turns);
      Legal(start, r.log) && Apart(TableOf(r.log)) && (!r.mtx ==>
        && Stored(r.mem, TableOf(r.log), SizeOf(s.mem.size, r.log))
        && Apart(r.mem.cells[..r.mem.count])
        && BytesOf(r.mem.size, r.mem.cells[..r.mem.count]) == s.mem.size)
  {
    RunKeeps(start, s, turns);
    var r := Run(start, s, turns);
    LegalApart(start, r.log);
    LegalBytes(s.mem.size, r.log);
  }

  // ---- every call is served ----------------------------------------------------------------------------

  /** The operations of thread `tid` in a log. */
  function OpsOf(log: seq<Event>, tid: nat): seq<Op> {
    if log == [] then []
    else OpsOf(log[..|log| - 1], tid) + if log[|log| - 1].tid == tid then [log[|log| - 1].op] else []
  }

  /** What thread `tid` has asked for along a run: the calls of its turns in which it was idle. */
  function CallsOf(start: nat, s: State, turns: seq<Turn>, tid: nat): seq<Op>
    decreases |turns|
  {
    if turns == [] then []
    else
      var rest, turn := turns[..|turns| - 1], turns[|turns| - 1];
      var before := Run(start, s, rest);
      CallsOf(start, s, rest, tid)
      + if turn.tid == tid && tid < |before.pcs| && before.pcs[tid] == Idle then [turn.call] else []
  }

  /** The operation a thread is at. */
  function Pending(pc: Pc): seq<Op> {
    if pc.Idle? then [] else [pc.op]
  }

  lemma WorkKeepsOp(m: Memory, pc: Pc)
    requires Holds(pc) && !pc.Leave?
    ensures Pending(Work(m, pc).pc) == Pending(pc)
  {
  }

  lemma OpsNext(log: seq<Event>, e: Event, tid: nat)
    ensures OpsOf(log + [e], tid) == OpsOf(log, tid) + if e.tid == tid then [e.op] else []
  {
    assert (log + [e])[..|log|] == log;
  }

  /** A step of another thread. */
  lemma OtherServes(start: nat, s: State, who: nat, call: Op, tid: nat)
    requires who < |s.pcs| && tid < |s.pcs| && who != tid
    ensures var s' := Step(start, s, who, call);
      |s'.pcs| == |s.pcs| && s'.pcs[tid] == s.pcs[tid] && OpsOf(s'.log, tid) == OpsOf(s.log, tid)
  {
    if s.pcs[who].Leave? {
      OpsNext(s.log, Event(who, s.pcs[who].op, s.pcs[who].ret), tid);
    }
  }

  /** A step of the thread itself. */
  lemma OwnServes(start: nat, s: State, tid: nat, call: Op)
    requires tid < |s.pcs|
    ensures var s' := Step(start, s, tid, call);
      && |s'.pcs| == |s.pcs|
      && OpsOf(s'.log, tid) + Pending(s'.pcs[tid])
         == OpsOf(s.log, tid) + Pending(s.pcs[tid]) + if s.pcs[tid] == Idle then [call] else []
  {
    var pc, ops := s.pcs[tid], OpsOf(s.log, tid);
    assert Pending(pc) + [] == Pending(pc);
    match pc
    case Idle => assert ops + [] + [call] == ops + [call];
    case Spin(op) => assert ops + [op] + [] == ops + [op];
    case Leave(op, ret) =>
      OpsNext(s.log, Event(tid, op, ret), tid);
      assert ops + [op] + [] == ops + [op];
    case _ =>
      WorkKeepsOp(s.mem, pc);
      assert ops + Pending(pc) + [] == ops + Pending(pc);
  }

  /** In every run the completed operations of a thread, with the one it is at, are exactly what it has asked for, in
      this order. */
  lemma {:induction false} CallsServed(start: nat, s: State, turns: seq<Turn>, tid: nat)
    requires Initial(s) && tid < |s.pcs|
    ensures var r := Run(start, s, turns);
      |r.pcs| == |s.pcs| && OpsOf(r.log, tid) + Pending(r.pcs[tid]) == CallsOf(start, s, turns, tid)
    decreases |turns|
  {
    if turns != [] {
      var rest, turn := turns[..|turns| - 1], turns[|turns| - 1];
      CallsServed(start, s, rest, tid);
      if turn.tid < |s.pcs| {
        if turn.tid == tid {
          OwnServes(start, Run(start, s, rest), tid, turn.call);
        } else {
          OtherServes(start, Run(start, s, rest), turn.tid, turn.call, tid);
        }
      }
    }
  }

  // ---- and completed ------------------------------------------------------------------------------------

  /** Thread `tid` runs alone for `n` turns. */
  function Alone(start: nat, s: State, tid: nat, n: nat): State
    requires tid < |s.pcs|
    decreases n
  {
    if n == 0 then s else Alone(start, Step(start, s, tid, Free(0)), tid, n - 1)
  }

  function AloneTurns(tid: nat, n: nat): seq<Turn> {
    seq(n, _ => Turn(tid, Free(0)))
  }

  lemma {:induction false} RunFront(start: nat, s: State, turn: Turn, turns: seq<Turn>)
    requires turn.tid < |s.pcs|
    ensures Run(start, s, [turn] + turns) == Run(start, Step(start, s, turn.tid, turn.call), turns)
    decreases |turns|
  {
    var all := [turn] + turns;
    if turns == [] {
      assert all[..0] == [];
    } else {
      RunFront(start, s, turn, turns[..|turns| - 1]);
      assert all[..|all| - 1] == [turn] + turns[..|turns| - 1];
    }
  }

  /** It is a run like any other. */
  lemma {:induction false} AloneIsRun(start: nat, s: State, tid: nat, n: nat)
    requires tid < |s.pcs|
    ensures Alone(start, s, tid, n) == Run(start, s, AloneTurns(tid, n))
    decreases n
  {
    if n > 0 {
      AloneIsRun(start, Step(start, s, tid, Free(0)), tid, n - 1);
      RunFront(start, s, Turn(tid, Free(0)), AloneTurns(tid, n - 1));
      assert AloneTurns(tid, n) == [Turn(tid, Free(0))] + AloneTurns(tid, n - 1);
    }
  }

  /** Where the candidate of a search stands when the round at hand ends, and whether there will be another round. */
  function RoundEnd(t: Table, pc: Pc): Passed {
    match pc
    case Align(op, v) => Round(t, op.Alloc? && op.align, RequestOf(op), v)
    case Scan(op, v, i, overlap) =>
      if -1 <= i < |t| then
        var r := Pass(t, i + 1, v, RequestOf(op));
        Passed(r.v, overlap || r.overlap)
      else Passed(v, overlap)
    case _ => Passed(0, false)
  }

  /** The search of a thread comes to an end within `k` more rounds. */
  ghost predicate EndsIn(t: Table, pc: Pc, k: nat) {
    var r := RoundEnd(t, pc);
    (pc.Align? || pc.Scan?) && r.overlap ==>
      k > 0 && !Round(t, pc.op.Alloc? && pc.op.align, RequestOf(pc.op),
                      Candidate(t, pc.op.Alloc? && pc.op.align, RequestOf(pc.op), r.v, k - 1)).overlap
  }

  lemma EndsInAlign(t: Table, op: Op, v: nat, k: nat)
    requires op.Alloc? && !Round(t, op.align, op.request, Candidate(t, op.align, op.request, v, k)).overlap
    ensures EndsIn(t, Align(op, v), k)
  {
    var r := Round(t, op.align, op.request, v);
    if r.overlap {
      assert Candidate(t, op.align, op.request, v, 0) == v;
      assert Candidate(t, op.align, op.request, v, k) == Candidate(t, op.align, op.request, r.v, k - 1);
    }
  }

  /** How many steps a thread is away from the next round at most, or from its end. */
  function Rank(t: Table, pc: Pc): nat {
    match pc
    case Idle => 0
    case Spin(_) => 0
    case Align(_, _) => 2 * |t| + 30
    case Scan(_, _, i, _) => |t| + 20 + Max(0, i + 1)
    case ShiftUp(_, _, i) => 10 + Max(0, i + 1)
    case Put(_, _) => 5
    case CountUp(_, _) => 4
    case SizeDown(_, _) => 3
    case Enter(_) => 2 * |t| + 30
    case Seek(_, i) => |t| + 10 + Max(0, |t| - i)
    case ShiftDown(_, _, _, i) => 5 + Max(0, |t| - i)
    case SizeUp(_, _) => 3
    case Leave(_, _) => 1
  }

  /** Looking at an entry, the last one included. */
  lemma ScanNearer(start: nat, m: Memory, t: Table, size: u32, pc: Pc, k: nat) returns (k': nat)
    requires Holds(pc) && pc.Scan? && Progress(start, m, t, size, pc) && EndsIn(t, pc, k)
    ensures var w := AllocWork(m, pc);
      && Holds(w.pc) && w.pc.op == pc.op && EndsIn(t, w.pc, k')
      && (k' < k || (k' == k && Rank(t, w.pc) < Rank(t, pc)))
  {
    k' := k;
    if pc.top >= 0 {
      assert m.cells[..|t|][pc.top] == t[pc.top];
    } else if pc.overlap {
      k' := k - 1;
      EndsInAlign(t, pc.op, pc.v, k');
    }
  }

  /** A step of the holder brings it nearer to the end. */
  lemma StepNearer(start: nat, m: Memory, t: Table, size: u32, pc: Pc, k: nat) returns (k': nat)
    requires Holds(pc) && !pc.Leave? && Progress(start, m, t, size, pc) && EndsIn(t, pc, k)
    ensures var w := Work(m, pc);
      Holds(w.pc) && w.pc.op == pc.op && EndsIn(t, w.pc, k') && (k' < k || (k' == k && Rank(t, w.pc) < Rank(t, pc)))
  {
    if pc.Scan? {
      k' := ScanNearer(start, m, t, size, pc, k);
    } else {
      k' := k;
    }
  }

  lemma {:induction false} Completes(start: nat, size0: u32, s: State, tid: nat, k: nat) returns (n: nat, ret: nat)
    requires Inv(start, size0, s) && tid < |s.pcs| && Holds(s.pcs[tid]) && EndsIn(TableOf(s.log), s.pcs[tid], k)
    ensures var r := Alone(start, s, tid, n);
      r.pcs == s.pcs[tid := Idle] && !r.mtx && r.log == s.log + [Event(tid, s.pcs[tid].op, ret)]
    decreases k, Rank(TableOf(s.log), s.pcs[tid])
  {
    var pc, s' := s.pcs[tid], Step(start, s, tid, Free(0));
    if pc.Leave? {
      assert Alone(start, s', tid, 0) == s';
      return 1, pc.ret;
    }
    var t, size := TableOf(s.log), SizeOf(size0, s.log);
    assert Progress(start, s.mem, t, size, pc);
    var k' := StepNearer(start, s.mem, t, size, pc, k);
    HolderStep(start, size0, s, tid, Free(0));
    n, ret := Completes(start, size0, s', tid, k');
    n := n + 1;
  }

  /** From the xchg of get_mtx on. */
  lemma SpinCompletes(start: nat, size0: u32, s: State, tid: nat, op: Op) returns (n: nat, ret: nat)
    requires Inv(start, size0, s) && tid < |s.pcs| && s.pcs[tid] == Spin(op) && !s.mtx
    requires op.Alloc? ==> Halts(TableOf(s.log), op.align, op.request, start + HEAP_HEADER)
    ensures var r := Alone(start, s, tid, n);
      r.pcs == s.pcs[tid := Idle] && !r.mtx && r.log == s.log + [Event(tid, op, ret)]
  {
    var s', t := Step(start, s, tid, Free(0)), TableOf(s.log);
    EnterStep(start, size0, s, tid, Free(0));
    var k: nat := 0;
    if op.Alloc? {
      k :| !Round(t, op.align, op.request, Candidate(t, op.align, op.request, start + HEAP_HEADER, k)).overlap;
      EndsInAlign(t, op, start + HEAP_HEADER, k);
    }
    n, ret := Completes(start, size0, s', tid, k);
    assert s'.pcs[tid := Idle] == s.pcs[tid := Idle];
    n := n + 1;
  }

  /** The thread searches, and its search does not end. */
  ghost predicate SearchesOn(t: Table, pc: Pc, op: Op) {
    && (pc.Align? || pc.Scan?) && pc.op == op && op.Alloc?
    && (if pc.Align? then !Halts(t, op.align, op.request, pc.v)
        else RoundEnd(t, pc).overlap && !Halts(t, op.align, op.request, RoundEnd(t, pc).v))
  }

  lemma HaltsLater(t: Table, align: bool, size: int, v: int)
    requires !Halts(t, align, size, v)
    ensures Round(t, align, size, v).overlap && !Halts(t, align, size, Round(t, align, size, v).v)
  {
    var r := Round(t, align, size, v);
    assert Candidate(t, align, size, v, 0) == v;
    if Halts(t, align, size, r.v) {
      var n: nat :| !Round(t, align, size, Candidate(t, align, size, r.v, n)).overlap;
      assert Candidate(t, align, size, v, n + 1) == Candidate(t, align, size, r.v, n);
    }
  }

  lemma SearchStep(start: nat, m: Memory, t: Table, size: u32, pc: Pc, op: Op)
    requires Holds(pc) && Progress(start, m, t, size, pc) && SearchesOn(t, pc, op)
    ensures SearchesOn(t, Work(m, pc).pc, op)
  {
    match pc
    case Align(_, v) => HaltsLater(t, op.align, op.request, v);
    case Scan(_, v, i, overlap) => assert i >= 0 ==> m.cells[..|t|][i] == t[i];
    case _ =>
  }

  lemma {:induction false} SearchesForEver(start: nat, size0: u32, s: State, tid: nat, op: Op, n: nat)
    requires Inv(start, size0, s) && tid < |s.pcs| && SearchesOn(TableOf(s.log), s.pcs[tid], op)
    ensures var r := Alone(start, s, tid, n); tid < |r.pcs| && r.pcs[tid] != Idle
    decreases n
  {
    if n > 0 {
      assert Progress(start, s.mem, TableOf(s.log), SizeOf(size0, s.log), s.pcs[tid]);
      SearchStep(start, s.mem, TableOf(s.log), SizeOf(size0, s.log), s.pcs[tid], op);
      HolderStep(start, size0, s, tid, Free(0));
      SearchesForEver(start, size0, Step(start, s, tid, Free(0)), tid, op, n - 1);
    }
  }

  lemma SpinForEver(start: nat, size0: u32, s: State, tid: nat, op: Op, n: nat)
    requires Inv(start, size0, s) && tid < |s.pcs| && s.pcs[tid] == Spin(op) && !s.mtx
    requires op.Alloc? && !Halts(TableOf(s.log), op.align, op.request, start + HEAP_HEADER)
    ensures var r := Alone(start, s, tid, n); tid < |r.pcs| && r.pcs[tid] != Idle
  {
    if n > 0 {
      EnterStep(start, size0, s, tid, Free(0));
      SearchesForEver(start, size0, Step(start, s, tid, Free(0)), tid, op, n - 1);
    }
  }

  /** Thread `tid` has completed `op` after `n` turns of its own, and nothing else has happened. */
  ghost predicate CompletedIn(start: nat, s: State, tid: nat, op: Op, n: nat) {
    var r := Run(start, s, AloneTurns(tid, n));
    && tid < |s.pcs| && r.pcs == s.pcs[tid := Idle] && !r.mtx
    && |r.log| == |s.log| + 1 && r.log[..|s.log|] == s.log
    && r.log[|s.log|].tid == tid && r.log[|s.log|].op == op
  }

  /** Completion: in any run, a thread that comes to the free lock and runs alone completes its operation exactly if it
      is a kfree or its search halts. */
  lemma Completion(start: nat, s: State, turns: seq<Turn>, tid: nat, op: Op)
    requires Initial(s) && tid < |s.pcs|
    ensures |Run(start, s, turns).pcs| == |s.pcs|
    ensures var r := Run(start, s, turns);
      r.pcs[tid] == Spin(op) && !r.mtx ==>
        ((exists n: nat :: CompletedIn(start, r, tid, op, n))
         <==> op.Free? || Halts(TableOf(r.log), op.align, op.request, start + HEAP_HEADER))
  {
    RunKeeps(start, s, turns);
    var r := Run(start, s, turns);
    if r.pcs[tid] == Spin(op) && !r.mtx {
      if op.Free? || Halts(TableOf(r.log), op.align, op.request, start + HEAP_HEADER) {
        var n, ret := SpinCompletes(start, s.mem.size, r, tid, op);
        AloneIsRun(start, r, tid, n);
        assert CompletedIn(start, r, tid, op, n);
      } else {
        forall n: nat ensures !CompletedIn(start, r, tid, op, n) {
          SpinForEver(start, s.mem.size, r, tid, op, n);
          AloneIsRun(start, r, tid, n);
        }
      }
    }
  }
}
