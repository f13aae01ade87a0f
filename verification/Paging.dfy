/** on_page_mode, phys2virt, virt2phys and get_page_info (src/memory.c:18-58, 333-400, 548-575). phys2virt takes the
    frames for its tables from the free ring, which it sees through the same window as the tables. */
module Paging {
  import opened Machine
  import opened PageRing
  import opened PageTables
  import opened TempPage
  import opened FrameStack
  import opened FramePool
  import PageFrames

  /** A word of memory other than the window's is as before. */
  ghost predicate OnlyWindow(m: Ram, m': Ram) {
    TEMP_TABLE < |m| == |m'| && m' == SetWordOf(m, TEMP_TABLE, TEMP_INDX, m'[TEMP_TABLE][TEMP_INDX])
  }

  /** The window shows the table of page `vp`. */
  ghost predicate Shows(m: Ram, dir: nat, vp: nat) {
    TEMP_TABLE < |m| && dir < |m| && vp / WORDS < WORDS && vp != TEMP_VPAGE ==>
      WindowOf(m) == FrameOf(m[dir][vp / WORDS])
  }

  class Mmu {
    const frames: PageFrames.PageFrames
    const ram: array<Page> := frames.ram
    ghost var runs: Ring                   // the free ring

    constructor (frames: PageFrames.PageFrames, ghost runs: Ring)
      ensures this.frames == frames && this.ram == frames.ram && this.runs == runs
    {
      this.frames := frames;
      this.runs := runs;
    }

    /** The free ring is in order, the directory in frame `dir` too, and it uses neither the headers of the ring nor the
        `n` frames that are handed out next. */
    ghost predicate Ready(dir: nat, n: nat)
      reads this, frames, ram
    {
      frames.ram == ram && frames.Free(runs) && !frames.physMemMtx && Spare(ram[..], dir, runs, n)
    }

    /** on_page_mode: the first 4608 pages are mapped to themselves. */
    method OnPageMode()
      requires TEMP_TABLE < ram.Length <= PAGES
      modifies ram
      ensures WellFormed(ram[..], KERN_DIR) && IdentityUpTo(ram[..], MAPPED_PAGES)
      ensures forall vp: nat :: vp < MAPPED_PAGES ==> Entry(ram[..], KERN_DIR, vp) == PAGE_SIZE * vp + 7
      ensures forall i: nat :: MAPPED_PAGES <= WORDS * i && i < WORDS ==> !Present(ram[KERN_DIR][i])
    {
      ram[KERN_DIR] := ZeroPage();
      var frame := 0;
      while frame < MAPPED_PAGES
        invariant 0 <= frame <= MAPPED_PAGES && IdentityUpTo(ram[..], frame)
      {
        var tableIndx, pageIndx := frame / WORDS, frame % WORDS;
        ghost var m := ram[..];
        IdentityNext(m, frame);
        ram[KERN_DIR] := ram[KERN_DIR][tableIndx := PAGE_SIZE * (KERN_DIR + 1 + tableIndx) + 7];
        ram[KERN_DIR + 1 + tableIndx] := ram[KERN_DIR + 1 + tableIndx][pageIndx := PAGE_SIZE * frame + 7];
        frame := frame + 1;
      }
      IdentityMeans(ram[..]);
    }

    /** alloc_phys_pages(1) on behalf of the directory in frame `dir`: the frame on top of the stack, which that does
        not use, or -1 if there is none. */
    method AllocFrame(ghost dir: nat, ghost n: nat) returns (addr: u32)
      requires Ready(dir, n) && n > 0
      modifies this`runs, frames, ram
      ensures dir < ram.Length && SameEntries(old(ram[..]), ram[..], dir) && ram[dir] == old(ram[dir])
      ensures addr == MINUS_ONE <==> old(Stack(runs)) == []
      ensures addr == MINUS_ONE ==>
        Ready(dir, n) && runs == old(runs) && frames.freePcount == old(frames.freePcount) == 0
      ensures addr != MINUS_ONE ==>
        && Ready(dir, n - 1) && addr == PAGE_SIZE * FrameOf(addr) && Unused(ram[..], dir, FrameOf(addr))
        && old(Stack(runs)) == Stack(runs) + [FrameOf(addr)] && FrameOf(addr) !in Stack(runs)
        && frames.freePcount == old(frames.freePcount) - 1
    {
      ghost var m, was := ram[..], runs;
      TopIs(m, dir, runs, n);
      StackSize(runs);
      addr := frames.AllocPhysPages(1, runs);
      if addr == MINUS_ONE {
        SpareUntouched(m, ram[..], dir, runs, n);
      } else {
        runs := Taken(was, 0, 1);
        PagesTaken(was, 0, 1);
        SparePopped(m, ram[..], dir, was, n);
        PopDistinct(was, m, dir, n);
      }
    }

    /** The entry of the directory for `vaddr`, with a new zeroed table if there is none. */
    method TableFor(pageDir: u32, tableIndx: nat, ghost n: nat) returns (table: u32, ok: bool, ghost left: nat)
      requires Ready(FrameOf(pageDir), n) && tableIndx < WORDS && FrameOf(pageDir) < ram.Length
      requires n > 0 || Present(ram[FrameOf(pageDir)][tableIndx])
      modifies this`runs, frames, ram
      ensures Ready(FrameOf(pageDir), left) && SameEntries(old(ram[..]), ram[..], FrameOf(pageDir))
      ensures left == if ok && !old(Present(ram[FrameOf(pageDir)][tableIndx])) then n - 1 else n
      ensures ok ==>
        Present(ram[FrameOf(pageDir)][tableIndx]) && FrameOf(ram[FrameOf(pageDir)][tableIndx]) == FrameOf(table)
      ensures Took(old(ram[FrameOf(pageDir)]), ram[FrameOf(pageDir)], old(frames.freePcount), frames.freePcount,
                   tableIndx, ok)
      ensures TablesFrom(old(ram[FrameOf(pageDir)]), ram[FrameOf(pageDir)], old(Stack(runs)), Stack(runs))
    {
      ghost var m0, dir := ram[..], FrameOf(pageDir);
      ghost var page, s := ram[dir], Stack(runs);
      Look(pageDir, dir, n);
      table := ram[WindowOf(ram[..])][tableIndx];
      ok, left := true, n;
      if !Present(table) {
        var addr := AllocFrame(dir, n);
        if addr != MINUS_ONE {
          FillTable(pageDir, tableIndx, addr, n - 1);
          table, left := addr, n - 1;
        } else {
          ok := false;
        }
      }
      assert TablesFromIs(page, ram[dir], s, Stack(runs));
    }

    /** temp_map_page while the tables are in order. */
    method Look(paddr: u32, ghost dir: nat, ghost n: nat)
      requires Ready(dir, n)
      modifies ram
      ensures Ready(dir, n) && dir < ram.Length && ram[dir] == old(ram[dir]) && WindowOf(ram[..]) == FrameOf(paddr)
      ensures SameEntries(old(ram[..]), ram[..], dir)
    {
      ghost var m := ram[..];
      SpareLess(m, dir, runs, n, n);
      TempMapPage(ram, paddr);
      TempWrite(m, dir, OrPresentWriteable(paddr));
      SpareKept(m, ram[..], dir, runs, n);
    }

    /** The new table is cleared and hooked into the directory, whatever frame it is. */
    method FillFrame(pageDir: u32, tableIndx: nat, addr: u32)
      requires TEMP_TABLE < ram.Length <= PAGES && tableIndx < WORDS && FrameOf(pageDir) < ram.Length
      requires FrameOf(addr) < ram.Length
      modifies ram
      ensures ram[..] == Filled(old(ram[..]), FrameOf(pageDir), tableIndx, FrameOf(addr), OrPresentWriteable(addr),
                                OrPresentWriteable(pageDir))
    {
      ghost var m := ram[..];
      TempMapPage(ram, addr);
      ram[WindowOf(ram[..])] := ZeroPage();
      TempMapPage(ram, pageDir);
      ram[WindowOf(ram[..])] := ram[WindowOf(ram[..])][tableIndx := Masked(addr) + 7];
    }

    method FillTable(pageDir: u32, tableIndx: nat, addr: u32, ghost n: nat)
      requires Ready(FrameOf(pageDir), n) && FrameOf(pageDir) < ram.Length && tableIndx < WORDS
      requires !Present(ram[FrameOf(pageDir)][tableIndx])
      requires Unused(ram[..], FrameOf(pageDir), FrameOf(addr)) && FrameOf(addr) !in Stack(runs)
      modifies ram
      ensures Ready(FrameOf(pageDir), n) && SameEntries(old(ram[..]), ram[..], FrameOf(pageDir))
      ensures Present(ram[FrameOf(pageDir)][tableIndx]) && FrameOf(ram[FrameOf(pageDir)][tableIndx]) == FrameOf(addr)
      ensures ram[FrameOf(pageDir)][tableIndx] == PAGE_SIZE * FrameOf(addr) + 7
      ensures forall i :: 0 <= i < WORDS && i != tableIndx ==> ram[FrameOf(pageDir)][i] == old(ram[FrameOf(pageDir)][i])
    {
      ghost var m, dir, w0, w1 := ram[..], FrameOf(pageDir), OrPresentWriteable(addr), OrPresentWriteable(pageDir);
      SpareFilled(m, frames.freePmemPointer, dir, runs, n, tableIndx, FrameOf(addr), w0, w1);
      FilledSuits(m, dir, tableIndx, FrameOf(addr), w0, w1);
      FillFrame(pageDir, tableIndx, addr);
    }

    /** One round of phys2virt. */
    method MapOne(pageDir: u32, vaddr: u32, paddr: u32, flags: u32, ghost n: nat) returns (ok: bool, ghost left: nat)
      requires Ready(FrameOf(pageDir), n) && flags < PAGE_SIZE && FrameOf(pageDir) < ram.Length
      requires n > 0 || Present(ram[FrameOf(pageDir)][vaddr / 0x40_0000])
      modifies this`runs, frames, ram
      ensures Ready(FrameOf(pageDir), left)
      ensures left == if ok && !old(Present(ram[FrameOf(pageDir)][vaddr / 0x40_0000])) then n - 1 else n
      ensures Took(old(ram[FrameOf(pageDir)]), ram[FrameOf(pageDir)], old(frames.freePcount), frames.freePcount,
                   vaddr / 0x40_0000, ok)
      ensures TablesFrom(old(ram[FrameOf(pageDir)]), ram[FrameOf(pageDir)], old(Stack(runs)), Stack(runs))
      ensures !ok ==> SameEntries(old(ram[..]), ram[..], FrameOf(pageDir))
      ensures ok && vaddr / PAGE_SIZE != TEMP_VPAGE ==>
        WindowOf(ram[..]) == FrameOf(ram[FrameOf(pageDir)][vaddr / 0x40_0000])
      ensures ok ==> forall q: nat :: q != TEMP_VPAGE ==>
        Entry(ram[..], FrameOf(pageDir), q) as int
        == if q == vaddr / PAGE_SIZE then PAGE_SIZE * FrameOf(paddr) + flags
          else Entry(old(ram[..]), FrameOf(pageDir), q)
    {
      var table;
      table, ok, left := TableFor(pageDir, vaddr / 0x40_0000, n);
      if ok {
        SetEntry(pageDir, vaddr, Masked(paddr) + flags, table, left);
      }
    }

    /** The write to the table. */
    method SetEntry(pageDir: u32, vaddr: u32, w: u32, table: u32, ghost n: nat)
      requires Ready(FrameOf(pageDir), n) && FrameOf(pageDir) < ram.Length
      requires Present(ram[FrameOf(pageDir)][vaddr / 0x40_0000])
      requires FrameOf(ram[FrameOf(pageDir)][vaddr / 0x40_0000]) == FrameOf(table)
      modifies ram
      ensures Ready(FrameOf(pageDir), n) && ram[FrameOf(pageDir)] == old(ram[FrameOf(pageDir)])
      ensures vaddr / PAGE_SIZE != TEMP_VPAGE ==> WindowOf(ram[..]) == FrameOf(table)
      ensures forall q: nat :: q != TEMP_VPAGE ==>
        Entry(ram[..], FrameOf(pageDir), q) == if q == vaddr / PAGE_SIZE then w
          else Entry(old(ram[..]), FrameOf(pageDir), q)
    {
      ghost var dir := FrameOf(pageDir);
      NoWrap(0, vaddr);
      Look(Masked(table), dir, n);
      ghost var m := ram[..];
      SpareLess(m, dir, runs, n, n);
      EntryWrite(m, dir, vaddr / PAGE_SIZE, w);
      ram[WindowOf(ram[..])] := ram[WindowOf(ram[..])][vaddr / PAGE_SIZE % WORDS := w];
      assert ram[..] == SetWordOf(m, FrameOf(table), vaddr / PAGE_SIZE % WORDS, w);
      SpareWritten(m, ram[..], frames.freePmemPointer, dir, runs, n, FrameOf(table), vaddr / PAGE_SIZE % WORDS, w);
      assert TableOk(m, dir, vaddr / 0x40_0000);
    }

    ghost predicate SoFarIs(dir: nat, m0: Ram, s0: seq<nat>, frames0: nat, vp: nat, paddr0: nat, flags: nat, k: nat,
                            n: nat, spare: nat, i: nat)
      reads this, frames, ram
    {
      && dir < |m0| == ram.Length && Ready(dir, Needed(m0[dir], vp, k, n) + spare)
      && Mapping(m0, ram[..], frames0, frames.freePcount, dir, vp, paddr0, flags, k)
      && TablesFrom(m0[dir], ram[dir], s0, Stack(runs))
    }

    /** phys2virt has mapped `k` of `n` pages; the frames that the rest needs are spare. */
    ghost predicate SoFar(dir: nat, m0: Ram, s0: seq<nat>, frames0: nat, vp: nat, paddr0: nat, flags: nat, k: nat,
                          n: nat, spare: nat)
      reads this, frames, ram
    {
      (if forall i: nat {:trigger Unfold(i)} {:trigger SoFarIs(dir, m0, s0, frames0, vp, paddr0, flags, k, n, spare,
                                                               i)} ::
         SoFarIs(dir, m0, s0, frames0, vp, paddr0, flags, k, n, spare, i)
       then Clean else Corrupt).Clean?
    }

    /** A round of phys2virt on page `k` of `n`. */
    method MapStep(pageDir: u32, vaddr: u32, paddr: u32, flags: u32, ghost m0: Ram, ghost s0: seq<nat>,
                   ghost frames0: nat, ghost vp: nat, ghost paddr0: nat, ghost k: nat, ghost n: nat, ghost spare: nat)
      returns (ok: bool)
      requires flags < PAGE_SIZE && k < n && vaddr / PAGE_SIZE == vp + k && vaddr / 0x40_0000 == (vp + k) / WORDS
      requires PAGE_SIZE * FrameOf(paddr) == paddr0 + PAGE_SIZE * k
      requires SoFar(FrameOf(pageDir), m0, s0, frames0, vp, paddr0, flags, k, n, spare)
      modifies this`runs, frames, ram
      ensures SoFar(FrameOf(pageDir), m0, s0, frames0, vp, paddr0, flags, if ok then k + 1 else k, n, spare)
      ensures ok ==> Shows(ram[..], FrameOf(pageDir), vp + k)
      ensures !ok ==> FrameOf(pageDir) < |m0| && |Tableless(m0[FrameOf(pageDir)], Slots(vp, n))| > frames0
    {
      ghost var m1, frames1, dir, s1 := ram[..], frames.freePcount, FrameOf(pageDir), Stack(runs);
      assert SoFarIs(dir, m0, s0, frames0, vp, paddr0, flags, k, n, spare, 0);
      MappingNeeds(m0, m1, frames0, frames1, dir, vp, paddr0, flags, k, n);
      ghost var left;
      ok, left := MapOne(pageDir, vaddr, paddr, flags, Needed(m0[dir], vp, k, n) + spare);
      TablesFromThen(m0[dir], m1[dir], ram[dir], s0, s1, Stack(runs));
      if ok {
        MappingNext(m0, m1, ram[..], frames0, frames1, frames.freePcount, dir, vp, paddr0, flags, k);
      } else {
        MappingShort(m0, m1, ram[..], frames0, frames1, frames.freePcount, dir, vp, paddr0, flags, k, n);
      }
    }

    lemma SoFarStart(dir: nat, vp: nat, paddr0: nat, flags: nat, n: nat, spare: nat)
      requires dir < ram.Length && Ready(dir, |Tableless(ram[dir], Slots(vp, n))| + spare)
      ensures SoFar(dir, ram[..], Stack(runs), frames.freePcount, vp, paddr0, flags, 0, n, spare)
    {
      TablesFromNone(ram[dir], Stack(runs));
      MappingStart(ram[..], frames.freePcount, dir, vp, paddr0, flags);
      assert SoFarIs(dir, ram[..], Stack(runs), frames.freePcount, vp, paddr0, flags, 0, n, spare, 0);
      assert Unfold(0);
    }

    lemma SoFarEnd(dir: nat, m0: Ram, s0: seq<nat>, frames0: nat, vp: nat, paddr0: nat, flags: nat, k: nat, n: nat,
                   spare: nat)
      requires SoFar(dir, m0, s0, frames0, vp, paddr0, flags, k, n, spare)
      ensures dir < |m0| == ram.Length && Ready(dir, spare) && TablesFrom(m0[dir], ram[dir], s0, Stack(runs))
      ensures Mapping(m0, ram[..], frames0, frames.freePcount, dir, vp, paddr0, flags, k)
      ensures |Tableless(m0[dir], Slots(vp, k))| <= frames0
    {
      assert SoFarIs(dir, m0, s0, frames0, vp, paddr0, flags, k, n, spare, 0);
      SpareLess(ram[..], dir, runs, Needed(m0[dir], vp, k, n) + spare, spare);
      MappingFits(m0, ram[..], frames0, frames.freePcount, dir, vp, paddr0, flags, k);
    }

    /** phys2virt: page for page, until `count` pages are mapped or a table is missing and no frame is left for it. It
        succeeds exactly if there is a frame for every missing table, and uses up one for each. The directory must not
        use those frames itself; `spare` further ones are left alone. */
    method Phys2virt(pageDir: u32, vaddr0: u32, paddr0: u32, count0: u32, flags: u32, ghost spare: nat)
      returns (ok: bool, ghost mapped: nat)
      requires FrameOf(pageDir) < ram.Length && flags < PAGE_SIZE
      requires vaddr0 + PAGE_SIZE * count0 <= WORD_LIMIT && paddr0 + PAGE_SIZE * count0 <= WORD_LIMIT
      requires Ready(FrameOf(pageDir), |Tableless(ram[FrameOf(pageDir)], Slots(vaddr0 / PAGE_SIZE, count0))| + spare)
      modifies this`runs, frames, ram
      ensures Ready(FrameOf(pageDir), spare) && mapped <= count0 && (ok <==> mapped == count0)
      ensures ok <==> old(|Tableless(ram[FrameOf(pageDir)], Slots(vaddr0 / PAGE_SIZE, count0))|)
                      <= old(frames.freePcount)
      ensures Mapping(old(ram[..]), ram[..], old(frames.freePcount), frames.freePcount, FrameOf(pageDir),
                      vaddr0 / PAGE_SIZE, Masked(paddr0), flags, mapped)
      ensures TablesFrom(old(ram[FrameOf(pageDir)]), ram[FrameOf(pageDir)], old(Stack(runs)), Stack(runs))
      ensures ok && count0 > 0 ==> Shows(ram[..], FrameOf(pageDir), vaddr0 / PAGE_SIZE + count0 - 1)
    {
      ghost var m0, frames0, dir, vp := ram[..], frames.freePcount, FrameOf(pageDir), vaddr0 / PAGE_SIZE;
      ghost var s0, p0 := Stack(runs), Masked(paddr0);
      SoFarStart(dir, vp, p0, flags, count0, spare);
      ok, mapped := MapAll(pageDir, vaddr0, paddr0, count0, flags, m0, s0, frames0, spare);
      SoFarEnd(dir, m0, s0, frames0, vp, p0, flags, mapped, count0, spare);
    }

    /** The loop of phys2virt. */
    method MapAll(pageDir: u32, vaddr0: u32, paddr0: u32, count0: u32, flags: u32, ghost m0: Ram, ghost s0: seq<nat>,
                  ghost frames0: nat, ghost spare: nat)
      returns (ok: bool, ghost mapped: nat)
      requires flags < PAGE_SIZE
      requires vaddr0 + PAGE_SIZE * count0 <= WORD_LIMIT && paddr0 + PAGE_SIZE * count0 <= WORD_LIMIT
      requires SoFar(FrameOf(pageDir), m0, s0, frames0, vaddr0 / PAGE_SIZE, Masked(paddr0), flags, 0, count0, spare)
      modifies this`runs, frames, ram
      ensures SoFar(FrameOf(pageDir), m0, s0, frames0, vaddr0 / PAGE_SIZE, Masked(paddr0), flags, mapped, count0, spare)
      ensures mapped <= count0 && (ok <==> mapped == count0)
      ensures !ok ==>
        FrameOf(pageDir) < |m0| && |Tableless(m0[FrameOf(pageDir)], Slots(vaddr0 / PAGE_SIZE, count0))| > frames0
      ensures ok && count0 > 0 ==> Shows(ram[..], FrameOf(pageDir), vaddr0 / PAGE_SIZE + count0 - 1)
    {
      ghost var dir, vp, p0 := FrameOf(pageDir), vaddr0 / PAGE_SIZE, Masked(paddr0);
      var vaddr, paddr, count := vaddr0, paddr0, count0;
      mapped := 0;
      while count > 0
        invariant mapped + count == count0 && SoFar(dir, m0, s0, frames0, vp, p0, flags, mapped, count0, spare)
        invariant count > 0 ==> vaddr == vaddr0 + PAGE_SIZE * mapped && paddr == paddr0 + PAGE_SIZE * mapped
        invariant mapped > 0 ==> Shows(ram[..], dir, vp + mapped - 1)
      {
        SlotOf(vaddr0, mapped, vaddr);
        SlotOf(paddr0, mapped, paddr);
        ok := MapStep(pageDir, vaddr, paddr, flags, m0, s0, frames0, vp, p0, mapped, count0, spare);
        if !ok {
          return;
        }
        vaddr := Add32(vaddr, PAGE_SIZE);
        paddr := Add32(paddr, PAGE_SIZE);
        count := count - 1;
        mapped := mapped + 1;
      }
      ok := true;
    }

    /** virt2phys. If the address has no table, the frame that the empty slot happens to name is read in its place. */
    method Virt2phys(pageDir: u32, vaddr: u32) returns (r: u32)
      requires WellFormed(ram[..], FrameOf(pageDir))
      requires FrameOf(ram[FrameOf(pageDir)][vaddr / 0x40_0000]) < ram.Length
      modifies ram
      ensures OnlyWindow(old(ram[..]), ram[..])
      ensures var table := old(FrameOf(ram[FrameOf(pageDir)][vaddr / 0x40_0000]));
        r == Masked(ram[table][vaddr / PAGE_SIZE % WORDS]) + vaddr % PAGE_SIZE
      ensures old(Present(ram[FrameOf(pageDir)][vaddr / 0x40_0000])) && vaddr / PAGE_SIZE != TEMP_VPAGE ==>
        r == Masked(Entry(old(ram[..]), FrameOf(pageDir), vaddr / PAGE_SIZE)) + vaddr % PAGE_SIZE
      ensures vaddr / PAGE_SIZE != TEMP_VPAGE && Walk(old(ram[..]), FrameOf(pageDir), vaddr).At? ==>
        Walk(old(ram[..]), FrameOf(pageDir), vaddr) == At(r)
    {
      ghost var dir, m := FrameOf(pageDir), ram[..];
      var tableIndx := vaddr / 0x40_0000;
      var pageIndx := vaddr / PAGE_SIZE % WORDS;
      var pageOffset := vaddr % PAGE_SIZE;
      WalkIs(m, dir, vaddr);
      TempMapPage(ram, pageDir);
      var table := ram[WindowOf(ram[..])][tableIndx];
      TempMapPage(ram, table);
      MovedTwice(m, OrPresentWriteable(pageDir), OrPresentWriteable(table));
      var entry := ram[WindowOf(ram[..])][pageIndx];
      NoWrap(entry, vaddr);
      assert TableOk(m, dir, tableIndx);
      r := Add32(Masked(entry), pageOffset);
    }

    /** get_page_info: the whole entry, 0 if there is no table. */
    method GetPageInfo(pageDir: u32, vaddr: u32) returns (r: u32)
      requires WellFormed(ram[..], FrameOf(pageDir))
      modifies ram
      ensures OnlyWindow(old(ram[..]), ram[..])
      ensures vaddr / PAGE_SIZE != TEMP_VPAGE ==> r == Entry(old(ram[..]), FrameOf(pageDir), vaddr / PAGE_SIZE)
    {
      ghost var dir, m := FrameOf(pageDir), ram[..];
      NoWrap(0, vaddr);
      TempMapPage(ram, pageDir);
      var pageTable := ram[WindowOf(ram[..])][vaddr / 0x40_0000];
      if !Present(pageTable) {
        MovedTwice(m, 0, OrPresentWriteable(pageDir));
        return 0;
      }
      assert TableOk(m, dir, vaddr / 0x40_0000);
      pageTable := Masked(pageTable);
      TempMapPage(ram, pageTable);
      MovedTwice(m, OrPresentWriteable(pageDir), OrPresentWriteable(pageTable));
      r := ram[WindowOf(ram[..])][vaddr / PAGE_SIZE % WORDS];
    }
  }

  lemma MovedTwice(m: Ram, w1: u32, w2: u32)
    requires TEMP_TABLE < |m|
    ensures var m2 := SetWordOf(m, TEMP_TABLE, TEMP_INDX, w2);
      SetWordOf(SetWordOf(m, TEMP_TABLE, TEMP_INDX, w1), TEMP_TABLE, TEMP_INDX, w2) == m2 && OnlyWindow(m, m2)
  {
    var p := m[TEMP_TABLE];
    assert p[TEMP_INDX := w1][TEMP_INDX := w2] == p[TEMP_INDX := w2];
  }

  /** What a lookup does is invisible to every directory and to the free ring. */
  lemma OnlyWindowMeans(m: Ram, m': Ram, dir: nat)
    requires OnlyWindow(m, m') && WellFormed(m, dir)
    ensures WellFormed(m', dir) && SameEntries(m, m', dir) && Headers(m') == Headers(m)
  {
    TempWrite(m, dir, m'[TEMP_TABLE][TEMP_INDX]);
  }

  lemma NoWrap(entry: u32, vaddr: u32)
    ensures Add32(Masked(entry), vaddr % PAGE_SIZE) == Masked(entry) + vaddr % PAGE_SIZE
    ensures vaddr / 0x40_0000 == vaddr / PAGE_SIZE / WORDS < WORDS && vaddr / PAGE_SIZE < PAGES
  {
  }

  lemma SlotOf(vaddr0: u32, k: nat, vaddr: u32)
    requires vaddr == vaddr0 + PAGE_SIZE * k
    ensures vaddr / 0x40_0000 == (vaddr0 / PAGE_SIZE + k) / WORDS < WORDS && vaddr / PAGE_SIZE == vaddr0 / PAGE_SIZE + k
    ensures PAGE_SIZE * FrameOf(vaddr) == Masked(vaddr0) + PAGE_SIZE * k
  {
  }
}
