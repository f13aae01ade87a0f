/** alloc_phys_pages and free_phys_pages (src/memory.c:115-291) on the ring of free page runs. */
module PageFrames {
  import opened Machine
  import opened PageRing
  import opened PageRelease
  import opened PageTables
  import opened TempPage

  class PageFrames {
    const ram: array<Page>
    var freePmemPointer: u32
    var freePcount: u32
    var physMemMtx: bool

    /** The first words of every physical page. */
    ghost function Mem(): seq<Header>
      reads ram
    {
      Headers(ram[..])
    }

    /** The page mapped at TEMP_PAGE. */
    function Window(): nat
      requires TEMP_TABLE < ram.Length
      reads ram
    {
      WindowOf(ram[..])
    }

    /** The header seen at TEMP_PAGE. */
    function Seen(): Header
      requires TEMP_TABLE < ram.Length && Window() < ram.Length
      reads ram
    {
      HeaderOf(ram[Window()])
    }

    /** The free memory is exactly the ring `runs`, and free_pcount is its number of pages. */
    ghost predicate Free(runs: Ring)
      reads this, ram
    {
      TEMP_TABLE < ram.Length && Holds(Mem(), freePmemPointer, runs) && freePcount == PagesIn(runs)
    }

    constructor (ram: array<Page>)
      requires TEMP_TABLE < ram.Length < MAX_PAGES
      ensures this.ram == ram && Free([]) && !physMemMtx
    {
      this.ram := ram;
      freePmemPointer := MINUS_ONE;
      freePcount := 0;
      physMemMtx := false;
    }

    /** get_free_block: the page becomes visible at TEMP_PAGE. */
    method GetFreeBlock(paddr: u32)
      requires TEMP_TABLE < ram.Length && paddr % PAGE == 0 && paddr / PAGE < ram.Length
      modifies ram
      ensures PAGE * Window() == paddr && Window() < ram.Length && Mem() == old(Mem())
      ensures forall m: Ram, s: set<nat> {:trigger Touched(m, old(ram[..]), s)} ::
        Touched(m, old(ram[..]), s) ==> Touched(m, ram[..], s)
    {
      TempMapPage(ram, paddr);
    }

    method SetPrev(prev: u32)
      requires TEMP_TABLE < ram.Length && Window() < ram.Length
      modifies ram
      ensures Window() == old(Window()) && Mem() == old(Mem()[Window() := Mem()[Window()].(prev := prev)])
      ensures forall m: Ram, s: set<nat> {:trigger Touched(m, old(ram[..]), s)} ::
        Touched(m, old(ram[..]), s) && Window() in s ==> Touched(m, ram[..], s)
    {
      SetField(ram, 0, prev, Seen().(prev := prev));
    }

    method SetNext(next: u32)
      requires TEMP_TABLE < ram.Length && Window() < ram.Length
      modifies ram
      ensures Window() == old(Window()) && Mem() == old(Mem()[Window() := Mem()[Window()].(next := next)])
      ensures forall m: Ram, s: set<nat> {:trigger Touched(m, old(ram[..]), s)} ::
        Touched(m, old(ram[..]), s) && Window() in s ==> Touched(m, ram[..], s)
    {
      SetField(ram, 1, next, Seen().(next := next));
    }

    method SetSize(size: u32)
      requires TEMP_TABLE < ram.Length && Window() < ram.Length
      modifies ram
      ensures Window() == old(Window()) && Mem() == old(Mem()[Window() := Mem()[Window()].(size := size)])
      ensures forall m: Ram, s: set<nat> {:trigger Touched(m, old(ram[..]), s)} ::
        Touched(m, old(ram[..]), s) && Window() in s ==> Touched(m, ram[..], s)
    {
      SetField(ram, 2, size, Seen().(size := size));
    }

    method SetHeader(prev: u32, next: u32, size: u32)
      requires TEMP_TABLE < ram.Length && Window() < ram.Length
      modifies ram
      ensures Window() == old(Window()) && Mem() == old(Mem()[Window() := Header(prev, next, size)])
      ensures forall m: Ram, s: set<nat> {:trigger Touched(m, old(ram[..]), s)} ::
        Touched(m, old(ram[..]), s) && Window() in s ==> Touched(m, ram[..], s)
    {
      SetPrev(prev);
      SetNext(next);
      SetSize(size);
    }

    /** The run at `a` gets `p` as its predecessor, the run at `b` gets `n` as its successor. */
    method Relink(a: u32, p: u32, b: u32, n: u32)
      requires TEMP_TABLE < ram.Length && a % PAGE == 0 && a / PAGE < ram.Length && b % PAGE == 0
               && b / PAGE < ram.Length
      modifies ram
      ensures var m := old(Mem())[a / PAGE := old(Mem())[a / PAGE].(prev := p)];
        Mem() == m[b / PAGE := m[b / PAGE].(next := n)]
      ensures forall m: Ram, s: set<nat> {:trigger Touched(m, old(ram[..]), s)} ::
        Touched(m, old(ram[..]), s) && a / PAGE in s && b / PAGE in s ==> Touched(m, ram[..], s)
    {
      GetFreeBlock(a);
      SetPrev(p);
      GetFreeBlock(b);
      SetNext(n);
    }

    /** The links of the exact-size branch of alloc_phys_pages: run `i` leaves the ring. */
    method Unlink(ghost runs: Ring, ghost i: nat)
      requires TEMP_TABLE < ram.Length
      requires HoldsIs(Mem(), freePmemPointer, runs) && i < |runs| && PAGE * Window() == Addr(runs[i])
      modifies ram
      ensures Mem() == Unlinked(old(Mem()), runs, i)
      ensures Touched(old(ram[..]), ram[..], Heads(runs))
    {
      TouchedSelf(ram[..], Heads(runs));
      ghost var m0 := Mem();
      assert Linked(m0, runs, i);
      DistinctPages(runs, |m0|, Next(|runs|, i), Prev(|runs|, i));
      var prev, next := Seen().prev, Seen().next;
      Relink(next, prev, prev, next);
    }

    /** The exact-size branch of alloc_phys_pages. */
    method TakeWhole(curBlock: u32, ghost runs: Ring, ghost i: nat)
      requires TEMP_TABLE < ram.Length
      requires HoldsIs(Mem(), freePmemPointer, runs) && i < |runs| && curBlock == Addr(runs[i]) == PAGE * Window()
      modifies this`freePmemPointer, ram
      ensures Holds(Mem(), freePmemPointer, Without(runs, i))
      ensures Touched(old(ram[..]), ram[..], Heads(runs))
    {
      TouchedSelf(ram[..], Heads(runs));
      ghost var m0 := Mem();
      assert Linked(m0, runs, i) && Linked(m0, runs, 0);
      UnlinkedHolds(m0, freePmemPointer, runs, i);
      DistinctPages(runs, |m0|, i, 0);
      DistinctPages(runs, |m0|, i, Next(|runs|, i));
      var next := Seen().next;
      Unlink(runs, i);
      if curBlock == freePmemPointer {
        freePmemPointer := next;
        if freePmemPointer == curBlock {
          freePmemPointer := MINUS_ONE;
        }
      }
    }

    /** The splitting branch: the tail of run `i` is cut off. */
    method TakeTail(curBlock: u32, count: u32, ghost runs: Ring, ghost i: nat) returns (result: u32)
      requires TEMP_TABLE < ram.Length
      requires HoldsIs(Mem(), freePmemPointer, runs) && i < |runs| && curBlock == Addr(runs[i]) == PAGE * Window()
      requires count < runs[i].pages
      modifies ram
      ensures result == PAGE * (EndPage(runs[i]) - count)
      ensures Holds(Mem(), freePmemPointer, Resized(runs, i, runs[i].pages - count))
      ensures Touched(old(ram[..]), ram[..], Heads(runs))
    {
      TouchedSelf(ram[..], Heads(runs));
      ghost var m0 := Mem();
      assert Linked(m0, runs, i);
      RunFits(runs, |m0|, i);
      ResizedSorted(runs, |m0|, i, runs[i].pages - count);
      ResizedHolds(m0, freePmemPointer, runs, i, runs[i].pages - count);
      SetSize(Sub32(Seen().size, count));
      assert Mem() == m0[runs[i].page := m0[runs[i].page].(size := runs[i].pages - count)];
      return Add32(curBlock, PAGE * Seen().size);
    }

    /** alloc_phys_pages: -1 exactly when no single run has `count` pages; otherwise the last `count` pages of the
        first run that is large enough, and no other page changes hands. */
    method AllocPhysPages(count: u32, ghost runs: Ring) returns (result: u32)
      requires Free(runs) && !physMemMtx
      modifies this, ram
      ensures !physMemMtx
      ensures result == MINUS_ONE <==> forall i :: 0 <= i < |runs| ==> runs[i].pages < count
      ensures result == MINUS_ONE ==> Free(runs) && Mem() == old(Mem())
      ensures result != MINUS_ONE ==>
        var i := FirstFit(runs, count);
        i < |runs| && result == PAGE * (EndPage(runs[i]) - count) && Free(Taken(runs, i, count))
      ensures Touched(old(ram[..]), ram[..], Heads(runs))
    {
      TouchedSelf(ram[..], Heads(runs));
      result := MINUS_ONE;
      physMemMtx := true;
      if freePcount < count {
        NoneLargeEnough(runs, count);
        physMemMtx := false;
        return;
      }
      if freePmemPointer != MINUS_ONE {
        result := TakeFirst(count, runs);
        if result != MINUS_ONE {
          freePcount := Sub32(freePcount, count);
        }
      }
      physMemMtx := false;
    }

    /** The two branches of alloc_phys_pages for a run that is large enough. */
    method TakeHere(curBlock: u32, count: u32, ghost runs: Ring, ghost i: nat) returns (result: u32)
      requires TEMP_TABLE < ram.Length && Free(runs) && freePcount >= count
      requires i < |runs| && curBlock == Addr(runs[i]) == PAGE * Window() && count <= runs[i].pages
      requires forall j :: 0 <= j < i ==> runs[j].pages < count
      modifies this`freePmemPointer, ram
      ensures i == FirstFit(runs, count) && result == PAGE * (EndPage(runs[i]) - count) && result != MINUS_ONE
      ensures Holds(Mem(), freePmemPointer, Taken(runs, i, count))
              && PagesIn(Taken(runs, i, count)) == freePcount - count
      ensures Touched(old(ram[..]), ram[..], Heads(runs))
    {
      assert Linked(Mem(), runs, i);
      RunFits(runs, ram.Length, i);
      FirstFitIs(runs, count, i);
      PagesTaken(runs, i, count);
      if Seen().size == count {
        TakeWhole(curBlock, runs, i);
        return curBlock;
      }
      result := TakeTail(curBlock, count, runs, i);
    }

    /** The walk of alloc_phys_pages. */
    method TakeFirst(count: u32, ghost runs: Ring) returns (result: u32)
      requires TEMP_TABLE < ram.Length
      requires Free(runs) && freePmemPointer != MINUS_ONE && freePcount >= count
      modifies this`freePmemPointer, ram
      ensures result == MINUS_ONE <==> forall i :: 0 <= i < |runs| ==> runs[i].pages < count
      ensures result == MINUS_ONE ==> Free(runs) && Mem() == old(Mem())
      ensures result != MINUS_ONE ==>
        var i := FirstFit(runs, count);
        && i < |runs| && result == PAGE * (EndPage(runs[i]) - count)
        && Holds(Mem(), freePmemPointer, Taken(runs, i, count))
           && PagesIn(Taken(runs, i, count)) == freePcount - count
      ensures Touched(old(ram[..]), ram[..], Heads(runs))
    {
      TouchedSelf(ram[..], Heads(runs));
      var curBlock := freePmemPointer;
      ghost var i := 0;
      ghost var m0, before := Mem(), ram[..];
      while true
        invariant Touched(before, ram[..], Heads(runs))
        invariant 0 <= i < |runs| && curBlock == Addr(runs[i]) && Mem() == m0 && Free(runs)
        invariant forall j :: 0 <= j < i ==> runs[j].pages < count
        decreases |runs| - i
      {
        assert Linked(m0, runs, i);
        RunFits(runs, |m0|, i);
        GetFreeBlock(curBlock);
        if Seen().size >= count {
          ghost var now := ram[..];
          result := TakeHere(curBlock, count, runs, i);
          TouchedThen(before, now, ram[..], Heads(runs), Heads(runs), Heads(runs));
          return;
        }
        curBlock := Seen().next;
        if curBlock == freePmemPointer {
          DistinctPages(runs, |m0|, Next(|runs|, i), 0);
          return MINUS_ONE;
        }
        i := i + 1;
      }
    }

    // ---- free_phys_pages -----------------------------------------------------------------------------

    /** The branch for pages that start where free run k - 1 ends: both neighbours are joined. */
    method Append(base: u32, count: u32, ghost runs: Ring, ghost r: Run, ghost k: nat)
      requires TEMP_TABLE < ram.Length
      requires HoldsIs(Mem(), freePmemPointer, runs) && Gap(runs, ram.Length, r, k) && JoinsLeft(runs, r, k)
      requires base == Addr(r) && count == r.pages && PAGE * Window() == Addr(runs[k - 1])
      modifies ram
      ensures Holds(Mem(), freePmemPointer, Released(runs, r, k))
    {
      ghost var m0, head, c := Mem(), freePmemPointer, k - 1;
      var curBlock := PAGE * Window();
      assert Linked(m0, runs, c) && Linked(m0, runs, Next(|runs|, c));
      GrownHolds(m0, head, runs, r, k);
      RunFits(runs, |m0|, 0);
      GapApart(runs, |m0|, r, k, Next(|runs|, c));
      SetSize(Add32(Seen().size, count));
      if Seen().next == Add32(base, PAGE * count) {
        assert Next(|runs|, c) == k;
        var nextOld := Seen().next;
        DistinctPages(runs, |m0|, c, k);
        DistinctPages(runs, |m0|, Next(|runs|, k), k);
        assert Linked(m0, runs, k);
        JoinBehind(curBlock, nextOld, runs[c].page, runs[k].page, runs[Next(|runs|, k)].page);
        JoinedHolds(m0, head, runs, r, k);
      }
    }

    /** The run behind is swallowed too. */
    method JoinBehind(curBlock: u32, nextOld: u32, ghost c: nat, ghost d: nat, ghost n: nat)
      requires TEMP_TABLE < ram.Length
      requires curBlock == PAGE * c && nextOld == PAGE * d && c < ram.Length && d < ram.Length && n < ram.Length
      requires c != d && Mem()[d].next == PAGE * n
      modifies ram
      ensures Mem() == Joined(old(Mem()), c, d, n)
    {
      ghost var m0 := Mem();
      GetFreeBlock(nextOld);
      var nextNew, newCount := Seen().next, Seen().size;
      GetFreeBlock(curBlock);
      SetNext(nextNew);
      SetSize(Add32(Seen().size, newCount));
      GetFreeBlock(nextNew);
      SetPrev(curBlock);
    }

    /** The branch for pages that end where free run `k` starts. */
    method Prepend(base: u32, ghost runs: Ring, ghost r: Run, ghost k: nat)
      requires TEMP_TABLE < ram.Length
      requires HoldsIs(Mem(), freePmemPointer, runs) && Gap(runs, ram.Length, r, k) && k < |runs|
      requires base == Addr(r) && PAGE * Window() == Addr(runs[k])
      modifies ram
      ensures Mem() == PrependMem(old(Mem()), runs, r, k)
    {
      ghost var m0 := Mem();
      GapApart(runs, |m0|, r, k, k);
      GapApart(runs, |m0|, r, k, Prev(|runs|, k));
      GapApart(runs, |m0|, r, k, Next(|runs|, k));
      assert Linked(m0, runs, k);
      var prev, next, oldCount := Seen().prev, Seen().next, Seen().size;
      GetFreeBlock(base);
      SetHeader(prev, next, Add32(Seen().size, oldCount));
      ghost var m1 := m0[r.page := Header(prev, next, Add32(m0[r.page].size, oldCount))];
      assert Mem() == m1;
      Relink(next, base, prev, base);
    }

    /** The branch for pages in front of free run `k` that touch no free run. */
    method InsertBefore(base: u32, count: u32, curBlock: u32, ghost runs: Ring, ghost r: Run, ghost k: nat)
      requires TEMP_TABLE < ram.Length
      requires HoldsIs(Mem(), freePmemPointer, runs) && Gap(runs, ram.Length, r, k) && k < |runs|
      requires base == Addr(r) && count == r.pages && PAGE * Window() == curBlock == Addr(runs[k])
      modifies ram
      ensures Mem() == InsertMem(old(Mem()), runs, r, k)
    {
      ghost var m0 := Mem();
      GapApart(runs, |m0|, r, k, k);
      GapApart(runs, |m0|, r, k, Next(|runs|, k));
      assert Linked(m0, runs, k);
      var prev := Seen().next;
      SetPrev(base);
      GetFreeBlock(prev);
      SetNext(base);
      GetFreeBlock(base);
      SetHeader(prev, curBlock, count);
    }

    /** The branch for pages behind the last free run. */
    method AddLast(base: u32, count: u32, curBlock: u32, ghost runs: Ring, ghost r: Run)
      requires TEMP_TABLE < ram.Length
      requires HoldsIs(Mem(), freePmemPointer, runs) && runs != [] && Gap(runs, ram.Length, r, |runs|)
      requires base == Addr(r) && count == r.pages && PAGE * Window() == curBlock == Addr(runs[|runs| - 1])
      modifies ram
      ensures Mem() == LastMem(old(Mem()), runs, r)
    {
      GapApart(runs, ram.Length, r, |runs|, |runs| - 1);
      SetPrev(base);
      SetNext(base);
      GetFreeBlock(base);
      SetHeader(curBlock, curBlock, count);
    }

    /** free_phys_pages for the pages `r`, which lie in the gap in front of free run `k`: the ring is right afterwards
        exactly under the conditions of ComesOutRight. */
    method FreePhysPages(base: u32, count: u32, ghost runs: Ring, ghost r: Run, ghost k: nat)
      requires Free(runs) && !physMemMtx && Gap(runs, ram.Length, r, k) && base == Addr(r) && count == r.pages
      modifies this, ram
      ensures !physMemMtx && freePcount == PagesIn(Released(runs, r, k)) == old(freePcount) + count
      ensures Free(Released(runs, r, k)) <==> ComesOutRight(old(Mem()), runs, r, k)
      ensures old(freePmemPointer) == MINUS_ONE ==> Touched(old(ram[..]), ram[..], {r.page})
    {
      TouchedSelf(ram[..], {r.page});
      physMemMtx := true;
      PagesReleased(runs, r, k);
      PagesBound(runs, ram.Length);
      if freePmemPointer == MINUS_ONE {
        assert runs == [];
        FirstHolds(Mem(), r);
        GetFreeBlock(base);
        SetHeader(base, base, count);
        freePmemPointer := base;
      } else {
        WalkAndLink(base, count, runs, r, k);
        if base < freePmemPointer {
          freePmemPointer := base;
        }
      }
      freePcount := Add32(freePcount, count);
      physMemMtx := false;
    }

    /** The walk of free_phys_pages: it stops at free run k - 1 or k. */
    method WalkAndLink(base: u32, count: u32, ghost runs: Ring, ghost r: Run, ghost k: nat)
      requires TEMP_TABLE < ram.Length
      requires Holds(Mem(), freePmemPointer, runs) && runs != []
      requires Gap(runs, ram.Length, r, k) && base == Addr(r) && count == r.pages
      modifies ram
      ensures Holds(Mem(), NewHead(freePmemPointer, base), Released(runs, r, k))
        <==> ComesOutRight(old(Mem()), runs, r, k)
    {
      var curBlock := freePmemPointer;
      ghost var i := 0;
      ghost var m0, head := Mem(), freePmemPointer;
      HeadMoves(m0, head, runs, r, k);
      while true
        invariant 0 <= i < |runs| && i <= k && curBlock == Addr(runs[i]) && Mem() == m0
                  && !(i > 0 && JoinsLeft(runs, r, i))
        decreases |runs| - i
      {
        assert Linked(m0, runs, i);
        GapApart(runs, |m0|, r, k, i);
        RunFits(runs, |m0|, i);
        GetFreeBlock(curBlock);
        if base == Add32(curBlock, PAGE * Seen().size) {
          JoinedRun(runs, |m0|, r, k, i);
          Append(base, count, runs, r, k);
          return;
        }
        if curBlock == Add32(base, PAGE * count) {
          PrependExact(m0, head, runs, r, k);
          Prepend(base, runs, r, k);
          return;
        }
        if curBlock > base {
          InsertExact(m0, head, runs, r, k);
          InsertBefore(base, count, curBlock, runs, r, k);
          return;
        }
        DistinctPages(runs, |m0|, Next(|runs|, i), 0);
        if Seen().next == freePmemPointer {
          LastExact(m0, head, runs, r);
          AddLast(base, count, curBlock, runs, r);
          return;
        }
        curBlock := Seen().next;
        i := i + 1;
      }
    }
  }

  lemma FirstFitIs(runs: Ring, count: nat, i: nat)
    requires i < |runs| && runs[i].pages >= count && forall j :: 0 <= j < i ==> runs[j].pages < count
    ensures FirstFit(runs, count) == i
  {
  }

  lemma NoneLargeEnough(runs: Ring, count: nat)
    requires PagesIn(runs) < count
    ensures forall i :: 0 <= i < |runs| ==> runs[i].pages < count
  {
    forall i | 0 <= i < |runs| ensures runs[i].pages < count {
      OneRunAtMost(runs, i);
    }
  }
}
