/** The kernel heap (src/memory.c:402-541): kmalloc_common and kfree over an unsorted table of live blocks.
    The allocation half is also umalloc_common (src/schedul.c:351-400). */
module Heap {
  import opened Machine
  import opened HeapTable
  import PageTables
  import Paging

  /** overlapped_blocks, on 32-bit pointers. */
  method OverlappedBlocks(base1: u32, size1: u32, base2: u32, size2: u32) returns (r: bool)
    requires base1 + size1 < WORD_LIMIT && base2 + size2 < WORD_LIMIT
    ensures r == Overlaps(HeapBlock(base1, size1), base2, size2)
  {
    r := (base1 >= base2 && base1 < Add32(base2, size2)) || (base2 >= base1 && base2 < Add32(base1, size1));
  }

  class Heap {
    const start: u32
    const blocks: array<HeapBlock>
    var count: nat
    var size: u32
    var heapMtx: bool

    ghost predicate Valid()
      reads this
    {
      count <= blocks.Length
    }

    constructor (start: u32, size: u32, blocks: array<HeapBlock>)
      ensures Valid() && this.start == start && this.blocks == blocks && this.size == size && !heapMtx && Live() == []
    {
      this.start := start;
      this.blocks := blocks;
      this.size := size;
      count := 0;
      heapMtx := false;
    }

    /** The live blocks, the newest first. */
    ghost function Live(): Table
      reads this, blocks
      requires Valid()
    {
      blocks[..count]
    }

    /** Constant over every run. */
    ghost function Bytes(): int
      reads this, blocks
      requires Valid()
    {
      BytesOf(size, Live())
    }

    /** With `request` more bytes no address computed wraps around. */
    ghost predicate Roomy(request: u32, top: nat)
      reads this, blocks
      requires Valid()
    {
      && start + HEAP_HEADER <= top && top + PAGE_SIZE + request < WORD_LIMIT
      && forall k :: 0 <= k < count ==> End(blocks[k]) <= top
    }

    /** The inner loop of the search: one pass over the table, from its end to its front. */
    method OnePass(v0: u32, request: u32, ghost top: nat) returns (vaddr: u32, overlap: bool)
      requires Valid() && Roomy(request, top) && v0 < top + PAGE_SIZE
      ensures Passed(vaddr, overlap) == Pass(Live(), |Live()|, v0, request)
      ensures vaddr < top + PAGE_SIZE && (overlap ==> vaddr <= top)
    {
      ghost var t := Live();
      vaddr, overlap := v0, false;
      var i := count - 1;
      while i >= 0
        invariant -1 <= i < count && vaddr < top + PAGE_SIZE && (overlap ==> vaddr <= top)
        invariant Pass(t, |t|, v0, request)
                  == Passed(Pass(t, i + 1, vaddr, request).v, overlap || Pass(t, i + 1, vaddr, request).overlap)
      {
        var b := blocks[i];
        var hit := OverlappedBlocks(b.base, b.size, vaddr, request);
        if hit {
          vaddr := Add32(b.base, b.size);
          overlap := true;
        }
        i := i - 1;
      }
    }

    /** `if(align) ...`: the candidate moves up to the next page boundary. */
    method AlignCandidate(v0: u32, align: bool) returns (vaddr: u32)
      requires v0 + PAGE_SIZE < WORD_LIMIT
      ensures vaddr == AlignUp(align, v0)
    {
      vaddr := v0;
      if align && v0 % 0x1000 != 0 {
        vaddr := Add32(v0 - v0 % 0x1000, PAGE_SIZE);
      }
    }

    /** The do-while loop: if it ends, it ends after at most count + 1 rounds, on the least address that fits. */
    method Search(request: u32, align: bool, ghost top: nat) returns (vaddr: u32, ghost rounds: nat)
      requires Valid() && Roomy(request, top) && Halts(Live(), align, request, start + HEAP_HEADER)
      ensures LeastFit(Live(), start + HEAP_HEADER, align, request, vaddr) && vaddr < top + PAGE_SIZE
      ensures rounds <= count + 1
    {
      ghost var t, from := Live(), start + HEAP_HEADER;
      vaddr := Add32(start, HEAP_HEADER);
      rounds := 0;
      var overlap := true;
      while overlap
        invariant overlap ==> vaddr <= top && rounds + EndsAbove(t, vaddr) <= |t|
        invariant overlap ==> Halts(t, align, request, vaddr)
        invariant NoneBelow(t, from, align, request, vaddr) && vaddr < top + PAGE_SIZE
        invariant !overlap ==> Fits(t, vaddr, request) && Aligned(align, vaddr) && rounds <= |t| + 1
        decreases overlap, EndsAbove(t, vaddr)
      {
        ghost var was := vaddr;
        vaddr := AlignCandidate(vaddr, align);
        RoundKeeps(t, from, align, request, was);
        RoundProgress(t, align, request, was);
        PassMoves(t, |t|, vaddr, request);
        vaddr, overlap := OnePass(vaddr, request, top);
        if overlap {
          HaltsNext(t, align, request, was);
        }
        rounds := rounds + 1;
      }
    }

    /** The entries move up by one and the new block becomes the first. */
    method InsertFront(b: HeapBlock)
      requires Valid() && count < blocks.Length
      modifies this`count, blocks
      ensures Valid() && Live() == [b] + old(Live())
    {
      ghost var t := Live();
      var i := count - 1;
      while i >= 0
        invariant -1 <= i < count == |t| && count < blocks.Length
        invariant forall k :: 0 <= k <= i ==> blocks[k] == t[k]
        invariant forall k :: i + 1 < k <= count ==> blocks[k] == t[k - 1]
      {
        blocks[i + 1] := blocks[i];
        i := i - 1;
      }
      blocks[0] := b;
      count := count + 1;
    }

    /** kmalloc_common; with `wanted` it also looks up the frame of the page the block starts in. */
    method KmallocCommon(request: u32, align: bool, wanted: bool, mmu: Paging.Mmu, kernPageDir: u32, ghost top: nat)
      returns (vaddr: u32, physAddr: u32)
      requires Valid() && Roomy(request, top) && !heapMtx && count < blocks.Length
      requires Halts(Live(), align, request, start + HEAP_HEADER)
      requires wanted ==> PageTables.WellFormed(mmu.ram[..], PageTables.FrameOf(kernPageDir))
      modifies this, blocks, mmu.ram
      ensures Valid() && !heapMtx && LeastFit(old(Live()), start + HEAP_HEADER, align, request, vaddr)
      ensures start + HEAP_HEADER <= vaddr && (align ==> vaddr % 0x1000 == 0)
      ensures forall w :: start + HEAP_HEADER <= w < vaddr && (align ==> w % 0x1000 == 0) ==>
        !Fits(old(Live()), w, request)
      ensures Live() == [HeapBlock(vaddr, request)] + old(Live())
      ensures old(Apart(Live())) ==> Apart(Live())
      ensures Bytes() == old(Bytes()) && size == Sub32(old(size), request)
      ensures if wanted then Paging.OnlyWindow(old(mmu.ram[..]), mmu.ram[..]) else mmu.ram[..] == old(mmu.ram[..])
      ensures wanted && vaddr / PAGE_SIZE != PageTables.TEMP_VPAGE ==>
        physAddr == PageTables.Masked(PageTables.Entry(old(mmu.ram[..]), PageTables.FrameOf(kernPageDir),
                                                       vaddr / PAGE_SIZE))
    {
      ghost var t := Live();
      heapMtx := true;
      ghost var rounds;
      vaddr, rounds := Search(request, align, top);
      physAddr := 0;
      if wanted {
        physAddr := mmu.GetPageInfo(kernPageDir, vaddr);
        physAddr := PageTables.Masked(physAddr);
      }
      InsertFront(HeapBlock(vaddr, request));
      size := Sub32(size, request);
      heapMtx := false;
      BytesAfterAlloc(old(size), t, HeapBlock(vaddr, request));
      if Apart(t) {
        ApartNew(t, HeapBlock(vaddr, request));
      }
    }

    /** The first search of kfree. */
    method FindBlock(vaddr: u32) returns (i: nat)
      requires Valid()
      ensures i == FindBase(Live(), vaddr)
    {
      ghost var t := Live();
      i := 0;
      while i < count
        invariant 0 <= i <= count && FindBase(t, vaddr) == i + FindBase(t[i..], vaddr)
      {
        assert t[i..][0] == blocks[i] && t[i..][1..] == t[i + 1..];
        if vaddr == blocks[i].base {
          return;
        }
        i := i + 1;
      }
    }

    /** The entries behind `idx` move down by one. */
    method RemoveAt(idx: nat)
      requires Valid() && idx < count
      modifies this`count, blocks
      ensures Valid() && Live() == Without(old(Live()), idx)
    {
      ghost var t := Live();
      var i := idx;
      while i < count - 1
        invariant idx <= i <= count - 1 && count == |t| <= blocks.Length
        invariant forall k :: 0 <= k < idx ==> blocks[k] == t[k]
        invariant forall k :: idx <= k < i ==> blocks[k] == t[k + 1]
        invariant forall k :: i <= k < count ==> blocks[k] == t[k]
      {
        blocks[i] := blocks[i + 1];
        i := i + 1;
      }
      count := count - 1;
    }

    /** kfree: the first block that starts at `vaddr` leaves the table; any other pointer changes nothing. */
    method Kfree(vaddr: u32)
      requires Valid() && !heapMtx
      modifies this, blocks
      ensures Valid() && !heapMtx && Live() == Freed(old(Live()), vaddr)
      ensures vaddr == 0 ==> Live() == old(Live()) && size == old(size)
      ensures Bytes() == old(Bytes())
      ensures old(Apart(Live())) ==> Apart(Live())
    {
      ghost var t := Live();
      heapMtx := true;
      if vaddr == 0 {
        heapMtx := false;
        return;
      }
      var i := FindBlock(vaddr);
      if i == count {
        heapMtx := false;
        return;
      }
      var freed := blocks[i].size;
      RemoveAt(i);
      size := Add32(size, freed);
      heapMtx := false;
      BytesAfterFree(old(size), t, i);
      if Apart(t) {
        ApartWithout(t, i);
      }
    }
  }
}
