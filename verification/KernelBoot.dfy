/** init_memory_manager (src/memory.c:293-331): which of the kernel's first mappings hold, given that its directory
    (frame 0x500) and its first five tables (frames 0x501 to 0x505) are on the free ring themselves. */
module KernelBoot {
  import opened Machine
  import opened PageRing
  import opened PageTables
  import opened TempPage
  import opened FrameStack
  import opened FramePool
  import opened Paging
  import PageFrames

  /** The first frame that is given to the free ring, at 1 MB. */
  const FIRST_FRAME := 0x100
  /** KERN_MEMORY_START + KERN_SIZE, the page of the heap's block table, and its length in pages */
  const BLOCKS_PAGE := 0x1000
  const BLOCKS_PAGES := 0x400
  /** KERN_HEAP_BASE: one byte short of a page boundary */
  const HEAP_BASE: u32 := 0x7DFF_FFFF
  const HEAP_SIZE := 0x200_0000
  const HEAP_PAGE := 0x7_DFFF
  const HEAP_PAGES := 0x2000
  const HEAP_FRAME := 0x1400

  /** The directory with its five tables, as on_page_mode leaves it. */
  ghost predicate KernelTables(m: Ram) {
    TEMP_TABLE < |m| <= PAGES && forall i: nat :: Hooked(m, i, MAPPED_PAGES)
  }

  predicate KernelFrame(f: nat) {
    KERN_DIR <= f <= TEMP_TABLE
  }

  /** The kernel directory uses exactly frames 0x500 to 0x505. */
  lemma KernelUnused(m: Ram, f: nat)
    requires KernelTables(m) && f < |m|
    ensures Unused(m, KERN_DIR, f) <==> !KernelFrame(f)
  {
    forall i: nat | i < WORDS ensures Present(m[KERN_DIR][i]) <==> i <= TEMP_TABLE_INDX {
      assert Hooked(m, i, MAPPED_PAGES);
    }
    forall i: nat | i <= TEMP_TABLE_INDX ensures FrameOf(m[KERN_DIR][i]) == KERN_DIR + 1 + i {
      assert Hooked(m, i, MAPPED_PAGES);
    }
    if KERN_DIR < f <= TEMP_TABLE {
      assert FrameOf(m[KERN_DIR][f - KERN_DIR - 1]) == f;
    }
  }

  /** The free ring of a machine whose memory ends with frame `end` - 1. */
  function BootRing(end: nat): Ring
    requires end > FIRST_FRAME
  {
    [Run(FIRST_FRAME, end - FIRST_FRAME)]
  }

  lemma BootStack(end: nat, j: nat)
    requires end > FIRST_FRAME
    ensures |Stack(BootRing(end))| == end - FIRST_FRAME
    ensures j < end - FIRST_FRAME ==> Stack(BootRing(end))[j] == FIRST_FRAME + j
  {
    assert BootRing(end)[1..] == [];
  }

  /** The next `n` frames can be used for tables exactly if none of them is the kernel's own. */
  lemma BootSpareExact(m: Ram, end: nat, n: nat)
    requires KernelTables(m) && WellFormed(m, KERN_DIR) && FIRST_FRAME < end <= |m| && n <= end - FIRST_FRAME
    ensures Spare(m, KERN_DIR, BootRing(end), n) <==> n == 0 || end <= KERN_DIR || TEMP_TABLE < end - n
  {
    var runs, s := BootRing(end), Stack(BootRing(end));
    BootStack(end, 0);
    SpareMeans(m, KERN_DIR, runs, n);
    KernelUnused(m, FIRST_FRAME);
    assert forall i: nat :: HeadSpare(m, KERN_DIR, runs, i);
    assert Sorted(runs, |m|);
    forall j: nat ensures TopSpare(m, KERN_DIR, s, n, j)
      <==> !(end - n <= FIRST_FRAME + j < end && KernelFrame(FIRST_FRAME + j)) {
      BootStack(end, j);
      if j < |s| {
        KernelUnused(m, FIRST_FRAME + j);
      }
    }
    if n > 0 && end > KERN_DIR && TEMP_TABLE >= end - n {
      var f := Max(end - n, KERN_DIR);
      assert !TopSpare(m, KERN_DIR, s, n, f - FIRST_FRAME);
    }
  }

  /** With memory up to frame 0x505 the first table phys2virt asks for is the table of TEMP_PAGE: it is cleared, and
      pages 0x1000 to 0x11FE are not mapped any more. */
  lemma BootTableCleared(m: Ram, t: nat, w0: u32, w1: u32)
    requires IdentityUpTo(m, MAPPED_PAGES) && TEMP_TABLE_INDX < t < WORDS
    ensures Stack(BootRing(0x506)) != [] && Stack(BootRing(0x506))[|Stack(BootRing(0x506))| - 1] == TEMP_TABLE
    ensures KERN_DIR < |m| && !Present(m[KERN_DIR][t])
    ensures var m' := Filled(m, KERN_DIR, t, TEMP_TABLE, w0, w1);
      && !WellFormed(m', KERN_DIR)
      && forall vp: nat :: BLOCKS_PAGE <= vp < TEMP_VPAGE ==>
           Entry(m, KERN_DIR, vp) == PAGE_SIZE * vp + 7 && Entry(m', KERN_DIR, vp) == 0
  {
    BootStack(0x506, 0x405);
    IdentityMeans(m);
    assert Hooked(m, t, MAPPED_PAGES) && Hooked(m, TEMP_TABLE_INDX, MAPPED_PAGES);
    FilledExact(m, KERN_DIR, t, TEMP_TABLE, w0, w1);
  }

  // ---- the mappings of init_memory_manager -------------------------------------------------------------

  /** What phys2virt makes of the heap: KERN_HEAP_BASE is not on a page boundary, so its last 4095 bytes are left out.
      */
  lemma HeapMapped(m: Ram, m': Ram, a: nat)
    requires MappedSome(m, m', KERN_DIR, HEAP_PAGE, PAGE_SIZE * HEAP_FRAME, 3, HEAP_PAGES)
    requires Entry(m, KERN_DIR, HEAP_PAGE + HEAP_PAGES) == 0 && HEAP_BASE <= a < HEAP_BASE + HEAP_SIZE
    ensures Walk(m', KERN_DIR, a) == if a < PAGE_SIZE * (HEAP_PAGE + HEAP_PAGES)
      then At(PAGE_SIZE * HEAP_FRAME + (a - PAGE_SIZE * HEAP_PAGE)) else Fault
  {
    MappedWalk(m, m', KERN_DIR, HEAP_PAGE, PAGE_SIZE * HEAP_FRAME, 3, HEAP_PAGES, a);
    WalkIs(m, KERN_DIR, a);
  }

  lemma {:induction false} SlotsBetween(vp: nat, n: nat, i: nat)
    ensures i in Slots(vp, n) <==> n > 0 && vp / WORDS <= i <= (vp + n - 1) / WORDS
  {
    if n > 0 {
      SlotsBetween(vp, n - 1, i);
    }
  }

  lemma {:induction false} IntervalSize(s: set<nat>, a: nat, b: nat)
    requires a <= b && forall i: nat :: i in s <==> a <= i < b
    ensures |s| == b - a
  {
    if a < b {
      IntervalSize(s - {a}, a + 1, b);
    } else {
      assert s == {};
    }
  }

  /** The block table needs no new page table, the heap nine. */
  lemma BootNeeds(m: Ram)
    requires KernelTables(m)
    ensures |Tableless(m[KERN_DIR], Slots(BLOCKS_PAGE, BLOCKS_PAGES))| == 0
    ensures |Tableless(m[KERN_DIR], Slots(HEAP_PAGE, HEAP_PAGES))| == 9
  {
    var page := m[KERN_DIR];
    forall i: nat ensures Hooked(m, i, MAPPED_PAGES) {
    }
    var a, b := Tableless(page, Slots(BLOCKS_PAGE, BLOCKS_PAGES)), Tableless(page, Slots(HEAP_PAGE, HEAP_PAGES));
    forall i: nat ensures i !in a && (i in b <==> 0x1F7 <= i < 0x200) {
      SlotsBetween(BLOCKS_PAGE, BLOCKS_PAGES, i);
      SlotsBetween(HEAP_PAGE, HEAP_PAGES, i);
      assert Hooked(m, i, MAPPED_PAGES);
    }
    assert a == {};
    IntervalSize(b, 0x1F7, 0x200);
  }

  /** init_memory_manager up to the first call of phys2virt, with one region of free memory. */
  method FreeMemory(mmu: Mmu, end: u32)
    requires mmu.frames.ram == mmu.ram && mmu.frames.Free([]) && !mmu.frames.physMemMtx
    requires BLOCKS_PAGE + BLOCKS_PAGES + 9 <= end <= mmu.ram.Length
    modifies mmu`runs, mmu.frames, mmu.ram
    ensures mmu.Ready(KERN_DIR, 9) && mmu.runs == BootRing(end) && KernelTables(mmu.ram[..])
    ensures forall vp: nat :: vp < MAPPED_PAGES && vp != TEMP_VPAGE ==>
      Entry(mmu.ram[..], KERN_DIR, vp) == PAGE_SIZE * vp + 7
  {
    mmu.OnPageMode();
    ghost var m, r := mmu.ram[..], Run(FIRST_FRAME, end - FIRST_FRAME);
    assert HoldsIs(Headers(m), mmu.frames.freePmemPointer, []);
    mmu.frames.FreePhysPages(PAGE_SIZE * FIRST_FRAME, end - FIRST_FRAME, [], r, 0);
    assert Released([], r, 0) == BootRing(end);
    mmu.runs := BootRing(end);
    BootTables(m, mmu.ram[..], end);
  }

  lemma BootTables(m: Ram, m': Ram, end: nat)
    requires IdentityUpTo(m, MAPPED_PAGES) && Touched(m, m', {FIRST_FRAME})
    requires BLOCKS_PAGE + BLOCKS_PAGES + 9 <= end <= |m|
    ensures KernelTables(m') && Spare(m', KERN_DIR, BootRing(end), 9)
    ensures forall vp: nat :: vp < MAPPED_PAGES && vp != TEMP_VPAGE ==> Entry(m', KERN_DIR, vp) == PAGE_SIZE * vp + 7
  {
    IdentityMeans(m);
    KernelUnused(m, FIRST_FRAME);
    TouchedTables(m, m', {FIRST_FRAME}, KERN_DIR);
    forall i: nat ensures Hooked(m', i, MAPPED_PAGES) {
      assert Hooked(m, i, MAPPED_PAGES);
    }
    BootSpareExact(m', end, 9);
  }

  /** Slot `i` of the directory: one of the first five tables, one of the nine for the heap, or none. */
  predicate KernelSlot(m: Ram, end: nat, i: nat) {
    i < WORDS && KERN_DIR < |m| ==>
      if i <= TEMP_TABLE_INDX then m[KERN_DIR][i] == PAGE_SIZE * (KERN_DIR + 1 + i) + 7
      else if 0x1F7 <= i < 0x200 then Present(m[KERN_DIR][i]) && end - 9 <= FrameOf(m[KERN_DIR][i]) < end
      else !Present(m[KERN_DIR][i])
  }

  /** The entry of page `q` after both calls of phys2virt. */
  function KernelEntry(q: nat): u32 {
    if q < BLOCKS_PAGE then PAGE_SIZE * q + 7
    else if q < BLOCKS_PAGE + BLOCKS_PAGES then PAGE_SIZE * q + 3
    else if HEAP_PAGE <= q < HEAP_PAGE + HEAP_PAGES then PAGE_SIZE * (HEAP_FRAME + q - HEAP_PAGE) + 3
    else 0
  }

  predicate KernelMaps(m: Ram, q: nat) {
    q != TEMP_VPAGE ==> Entry(m, KERN_DIR, q) == KernelEntry(q)
  }

  ghost predicate KernelMapped(m: Ram, end: nat) {
    && WellFormed(m, KERN_DIR) && end <= |m| && (forall i: nat :: KernelSlot(m, end, i))
    && (forall q: nat :: KernelMaps(m, q)) && Shows(m, KERN_DIR, HEAP_PAGE + HEAP_PAGES - 1)
  }

  lemma StackSame(a: seq<nat>, b: seq<nat>)
    requires a <= b && |a| == |b|
    ensures a == b
  {
  }

  /** No table was missing for the block table. */
  lemma BlocksMapped(m: Ram, m1: Ram, s: seq<nat>, n: nat, n1: nat, s1: seq<nat>)
    requires KernelTables(m) && Mapping(m, m1, n, n1, KERN_DIR, BLOCKS_PAGE, PAGE_SIZE * BLOCKS_PAGE, 3, BLOCKS_PAGES)
    requires TablesFrom(m[KERN_DIR], m1[KERN_DIR], s, s1) && n == |s| && n1 == |s1|
    requires forall vp: nat :: vp < MAPPED_PAGES && vp != TEMP_VPAGE ==> Entry(m, KERN_DIR, vp) == PAGE_SIZE * vp + 7
    ensures n1 == n && s1 == s && m1[KERN_DIR] == m[KERN_DIR] && KernelTables(m1)
    ensures forall q: nat :: q < HEAP_PAGE && q != TEMP_VPAGE ==> Entry(m1, KERN_DIR, q) == KernelEntry(q)
    ensures forall q: nat :: HEAP_PAGE <= q ==> Entry(m1, KERN_DIR, q) == 0
  {
    BootNeeds(m);
    MappingMeans(m, m1, n, n1, KERN_DIR, BLOCKS_PAGE, PAGE_SIZE * BLOCKS_PAGE, 3, BLOCKS_PAGES);
    StackSame(s1, s);
    forall i: nat | i < WORDS ensures m1[KERN_DIR][i] == m[KERN_DIR][i] {
      assert TableFrom(m[KERN_DIR], m1[KERN_DIR], s, s1, i);
    }
    forall i: nat ensures Hooked(m1, i, MAPPED_PAGES) {
      assert Hooked(m, i, MAPPED_PAGES);
    }
    forall q: nat | MAPPED_PAGES <= q ensures BLOCKS_PAGE <= q < BLOCKS_PAGE + BLOCKS_PAGES
      || Entry(m, KERN_DIR, q) == 0 {
      assert q / WORDS < WORDS ==> Hooked(m, q / WORDS, MAPPED_PAGES);
    }
  }

  /** The nine frames on top of the stack have become the heap's tables. */
  lemma HeapTables(m: Ram, m2: Ram, end: nat, n: nat, n2: nat, s2: seq<nat>)
    requires KernelTables(m) && end > FIRST_FRAME + 9 && n == |Stack(BootRing(end))| && n2 == |s2|
    requires Mapping(m, m2, n, n2, KERN_DIR, HEAP_PAGE, PAGE_SIZE * HEAP_FRAME, 3, HEAP_PAGES)
    requires TablesFrom(m[KERN_DIR], m2[KERN_DIR], Stack(BootRing(end)), s2)
    ensures forall i: nat :: KernelSlot(m2, end, i)
    ensures s2 == Stack(BootRing(end - 9))
  {
    var s := Stack(BootRing(end));
    BootNeeds(m);
    MappingMeans(m, m2, n, n2, KERN_DIR, HEAP_PAGE, PAGE_SIZE * HEAP_FRAME, 3, HEAP_PAGES);
    BootStack(end, 0);
    BootStack(end - 9, 0);
    forall j | 0 <= j < |s2| ensures s2[j] == FIRST_FRAME + j == Stack(BootRing(end - 9))[j] {
      BootStack(end, j);
      BootStack(end - 9, j);
    }
    forall i: nat ensures KernelSlot(m2, end, i) {
      assert Hooked(m, i, MAPPED_PAGES) && TableFrom(m[KERN_DIR], m2[KERN_DIR], s, s2, i);
      SlotsBetween(HEAP_PAGE, HEAP_PAGES, i);
      if i < WORDS && 0x1F7 <= i < 0x200 {
        TopFrame(end, s2, FrameOf(m2[KERN_DIR][i]));
      }
    }
  }

  lemma TopFrame(end: nat, s2: seq<nat>, f: nat)
    requires end > FIRST_FRAME + 9 && s2 == Stack(BootRing(end - 9)) && f in Stack(BootRing(end)) && f !in s2
    ensures end - 9 <= f < end
  {
    BootStack(end, 0);
    var j :| 0 <= j < end - FIRST_FRAME && Stack(BootRing(end))[j] == f;
    BootStack(end, j);
    BootStack(end - 9, j);
  }

  /** The two calls of phys2virt. */
  method MapKernel(mmu: Mmu, end: u32)
    requires BLOCKS_PAGE + BLOCKS_PAGES + 9 <= end <= mmu.ram.Length
    requires mmu.Ready(KERN_DIR, 9) && mmu.runs == BootRing(end) && KernelTables(mmu.ram[..])
    requires forall vp: nat :: vp < MAPPED_PAGES && vp != TEMP_VPAGE ==>
      Entry(mmu.ram[..], KERN_DIR, vp) == PAGE_SIZE * vp + 7
    modifies mmu`runs, mmu.frames, mmu.ram
    ensures mmu.Ready(KERN_DIR, 0) && Stack(mmu.runs) == Stack(BootRing(end - 9))
    ensures KernelMapped(mmu.ram[..], end)
  {
    ghost var m, n := mmu.ram[..], mmu.frames.freePcount;
    BootNeeds(m);
    BootStack(end, 0);
    StackSize(mmu.runs);
    var ok;
    ghost var k;
    ok, k := mmu.Phys2virt(PAGE_SIZE * KERN_DIR, PAGE_SIZE * BLOCKS_PAGE, PAGE_SIZE * BLOCKS_PAGE, BLOCKS_PAGES, 3, 9);
    ghost var m1, n1 := mmu.ram[..], mmu.frames.freePcount;
    StackSize(mmu.runs);
    BlocksMapped(m, m1, Stack(BootRing(end)), n, n1, Stack(mmu.runs));
    BootNeeds(m1);
    ok, k := mmu.Phys2virt(PAGE_SIZE * KERN_DIR, HEAP_BASE, PAGE_SIZE * HEAP_FRAME, HEAP_PAGES, 3, 0);
    StackSize(mmu.runs);
    HeapTables(m1, mmu.ram[..], end, n1, mmu.frames.freePcount, Stack(mmu.runs));
    SpareLess(mmu.ram[..], KERN_DIR, mmu.runs, 0, 0);
    HeapEntries(m1, mmu.ram[..], n1, mmu.frames.freePcount);
  }

  lemma HeapEntries(m1: Ram, m2: Ram, n1: nat, n2: nat)
    requires |m1| == |m2| && Mapping(m1, m2, n1, n2, KERN_DIR, HEAP_PAGE, PAGE_SIZE * HEAP_FRAME, 3, HEAP_PAGES)
    requires forall q: nat :: q < HEAP_PAGE && q != TEMP_VPAGE ==> Entry(m1, KERN_DIR, q) == KernelEntry(q)
    requires forall q: nat :: HEAP_PAGE <= q ==> Entry(m1, KERN_DIR, q) == 0
    ensures forall q: nat :: KernelMaps(m2, q)
  {
    MappingMeans(m1, m2, n1, n2, KERN_DIR, HEAP_PAGE, PAGE_SIZE * HEAP_FRAME, 3, HEAP_PAGES);
  }

  // ---- clearing the block table -------------------------------------------------------------------------

  /** Frame `f` after the first `k` pages of the block table have been cleared; one of them is TEMP_PAGE, and there the
      window shows frame `w`. */
  predicate ClearedAt(m: Ram, m': Ram, w: nat, k: nat, f: nat) {
    f < |m| && f < |m'| ==>
      m'[f] == if (BLOCKS_PAGE <= f < BLOCKS_PAGE + k && f != TEMP_VPAGE) || (f == w && BLOCKS_PAGE + k > TEMP_VPAGE)
               then ZeroPage() else m[f]
  }

  ghost predicate Cleared(m: Ram, m': Ram, w: nat, k: nat) {
    |m'| == |m| && forall f: nat :: ClearedAt(m, m', w, k, f)
  }

  /** Where the processor writes to when it clears page `k` of the block table. */
  lemma ClearedFrame(m: Ram, m': Ram, end: nat, w: nat, k: nat)
    requires KernelMapped(m, end) && w == WindowOf(m) && Cleared(m, m', w, k) && k < BLOCKS_PAGES
    requires BLOCKS_PAGE + BLOCKS_PAGES + 9 <= end
    ensures Entry(m', KERN_DIR, BLOCKS_PAGE + k) == Entry(m, KERN_DIR, BLOCKS_PAGE + k)
    ensures FrameOf(Entry(m, KERN_DIR, BLOCKS_PAGE + k))
            == (if BLOCKS_PAGE + k == TEMP_VPAGE then w else BLOCKS_PAGE + k)
    ensures w < end && end - 9 <= w
  {
    assert KernelSlot(m, end, TEMP_TABLE_INDX) && KernelSlot(m, end, 0x1FF);
    assert ClearedAt(m, m', w, k, KERN_DIR) && ClearedAt(m, m', w, k, TEMP_TABLE);
    assert KernelMaps(m, BLOCKS_PAGE + k);
  }

  /** memset(kheap.blocks, 0, KERN_HEAP_BLOCK_INF): page after page, through the kernel's own page tables. */
  method ClearBlocks(ram: array<Page>, ghost end: nat)
    requires KernelMapped(ram[..], end) && BLOCKS_PAGE + BLOCKS_PAGES + 9 <= end
    modifies ram
    ensures Cleared(old(ram[..]), ram[..], WindowOf(old(ram[..])), BLOCKS_PAGES)
  {
    ghost var m, w := ram[..], WindowOf(ram[..]);
    var k := 0;
    while k < BLOCKS_PAGES
      invariant 0 <= k <= BLOCKS_PAGES && Cleared(m, ram[..], w, k)
    {
      ClearedFrame(m, ram[..], end, w, k);
      ghost var m' := ram[..];
      var f := FrameOf(Entry(ram[..], KERN_DIR, BLOCKS_PAGE + k));
      ram[f] := ZeroPage();
      k := k + 1;
      forall g: nat ensures ClearedAt(m, ram[..], w, k, g) {
        assert ClearedAt(m, m', w, k - 1, g);
      }
    }
  }

  /** The table that is lost: it maps the heap from 0x7FC00000 on. */
  const LOST_PAGE := 0x7_FC00

  /** The entry of page `q` when init_memory_manager has ended. */
  predicate BootMaps(m: Ram, q: nat) {
    q != TEMP_VPAGE ==> Entry(m, KERN_DIR, q) == if LOST_PAGE <= q then 0 else KernelEntry(q)
  }

  lemma BootCleared(m: Ram, m': Ram, end: nat)
    requires KernelMapped(m, end) && BLOCKS_PAGE + BLOCKS_PAGES + 9 <= end && Cleared(m, m', WindowOf(m), BLOCKS_PAGES)
    ensures WellFormed(m', KERN_DIR) && m'[KERN_DIR] == m[KERN_DIR] && forall q: nat :: BootMaps(m', q)
  {
    var w := WindowOf(m);
    ClearedFrame(m, m, end, w, 0);
    assert ClearedAt(m, m', w, BLOCKS_PAGES, KERN_DIR);
    forall i: nat ensures TableOk(m', KERN_DIR, i) {
      assert TableOk(m, KERN_DIR, i);
    }
    forall i: nat, j: nat ensures TablesApart(m', KERN_DIR, i, j) {
      assert TablesApart(m, KERN_DIR, i, j);
    }
    forall q: nat ensures BootMaps(m', q) {
      EntryCleared(m, m', end, q);
    }
  }

  lemma EntryCleared(m: Ram, m': Ram, end: nat, q: nat)
    requires KernelMapped(m, end) && BLOCKS_PAGE + BLOCKS_PAGES + 9 <= end && Cleared(m, m', WindowOf(m), BLOCKS_PAGES)
    requires m'[KERN_DIR] == m[KERN_DIR]
    ensures BootMaps(m', q)
  {
    var w, i := WindowOf(m), q / WORDS;
    assert KernelMaps(m, q) && KernelSlot(m, end, i) && KernelSlot(m, end, 0x1FF);
    if i < WORDS && Present(m[KERN_DIR][i]) {
      var f := FrameOf(m[KERN_DIR][i]);
      assert ClearedAt(m, m', w, BLOCKS_PAGES, f);
      assert TablesApart(m, KERN_DIR, i, 0x1FF) && TablesApart(m, KERN_DIR, 0x1FF, i);
    }
  }

  /** init_memory_manager on a machine with one region of free memory, frames 0x100 to `end` - 1. Clearing the block
      table runs over TEMP_PAGE, where the table of the last heap pages is still seen: those are not mapped any more. */
  method InitMemoryManager(frames: PageFrames.PageFrames, end: u32) returns (mmu: Mmu)
    requires frames.Free([]) && !frames.physMemMtx && BLOCKS_PAGE + BLOCKS_PAGES + 9 <= end <= frames.ram.Length
    modifies frames, frames.ram
    ensures fresh(mmu) && mmu.frames == frames && mmu.ram == frames.ram
    ensures mmu.runs == BootRing(end - 9) && frames.Free(mmu.runs)
    ensures WellFormed(mmu.ram[..], KERN_DIR) && forall q: nat :: BootMaps(mmu.ram[..], q)
  {
    mmu := new Mmu(frames, []);
    FreeMemory(mmu, end);
    MapKernel(mmu, end);
    ghost var m := mmu.ram[..];
    ClearBlocks(mmu.ram, end);
    BootCleared(m, mmu.ram[..], end);
    RingCleared(m, mmu.ram[..], frames.freePmemPointer, mmu.runs, end);
  }

  /** A stack in ascending order comes from a single run. */
  lemma OneRun(runs: Ring, total: nat, end: nat)
    requires Sorted(runs, total) && end > FIRST_FRAME && Stack(runs) == Stack(BootRing(end))
    ensures runs == BootRing(end)
  {
    BootStack(end, 0);
    var r, rest, s := runs[0], runs[1..], Stack(runs);
    assert s == Stack(rest) + Pages(r) && Placed(runs, total, 0);
    if rest != [] {
      assert Placed(runs, total, 1) && InOrder(runs, 0, 1);
      assert s[|s| - 1] == Pages(r)[r.pages - 1] == EndPage(r) - 1;
      HeadInStack(runs, total, 1);
      var j :| 0 <= j < |s| && s[j] == runs[1].page;
      BootStack(end, j);
      assert false;
    }
    assert s == Pages(r) && r.pages == end - FIRST_FRAME && r.page == Pages(r)[0];
  }

  lemma RingCleared(m: Ram, m': Ram, head: u32, runs: Ring, end: nat)
    requires KernelMapped(m, end) && BLOCKS_PAGE + BLOCKS_PAGES + 9 <= end && Cleared(m, m', WindowOf(m), BLOCKS_PAGES)
    requires Holds(Headers(m), head, runs) && Stack(runs) == Stack(BootRing(end - 9))
    ensures runs == BootRing(end - 9) && Holds(Headers(m'), head, runs)
  {
    OneRun(runs, |m|, end - 9);
    ClearedFrame(m, m, end, WindowOf(m), 0);
    assert ClearedAt(m, m', WindowOf(m), BLOCKS_PAGES, FIRST_FRAME);
    HoldsKept(m, m', head, runs);
  }

  lemma HeapEntryPresent(q: nat)
    requires HEAP_PAGE <= q < HEAP_PAGE + HEAP_PAGES
    ensures Present(KernelEntry(q))
  {
    assert KernelEntry(q) == 2 * (0x800 * (HEAP_FRAME + q - HEAP_PAGE) + 1) + 1;
  }

  /** Exactly the heap below 0x7FC00000 is mapped; 4194303 of its 33554432 bytes are not. */
  lemma HeapReach(m: Ram, a: nat)
    requires (forall q: nat :: BootMaps(m, q)) && HEAP_BASE <= a < HEAP_BASE + HEAP_SIZE
    ensures Present(Entry(m, KERN_DIR, a / PAGE_SIZE)) <==> a < PAGE_SIZE * LOST_PAGE
    ensures HEAP_BASE + HEAP_SIZE - PAGE_SIZE * LOST_PAGE == 4194303
  {
    var q := a / PAGE_SIZE;
    assert BootMaps(m, q) && HEAP_PAGE <= q <= HEAP_PAGE + HEAP_PAGES && (q < LOST_PAGE <==> a < PAGE_SIZE * LOST_PAGE);
    if q < LOST_PAGE {
      HeapEntryPresent(q);
    }
  }
}
