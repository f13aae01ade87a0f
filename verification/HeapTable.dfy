/** The table of live heap blocks and the repeated search for a free address (src/memory.c:402-464). */
module HeapTable {
  import opened Machine

  const PAGE_SIZE := 0x1000
  /** sizeof(heap_s): six 32-bit fields. */
  const HEAP_HEADER := 24

  datatype HeapBlock = HeapBlock(base: nat, size: nat)

  type Table = seq<HeapBlock>

  predicate Inside(b: HeapBlock, addr: int) {
    b.base <= addr < b.base + b.size
  }

  function End(b: HeapBlock): nat {
    b.base + b.size
  }

  /** overlapped_blocks(b.base, b.size, v, size), with addresses that do not wrap. */
  predicate Overlaps(b: HeapBlock, v: int, size: int) {
    (b.base >= v && b.base < v + size) || (v >= b.base && v < b.base + b.size)
  }

  predicate Fits(t: Table, v: int, size: int) {
    forall k :: 0 <= k < |t| ==> !Overlaps(t[k], v, size)
  }

  /** No live block starts inside another one. */
  predicate Apart(t: Table) {
    forall i, j :: 0 <= i < |t| && 0 <= j < |t| && i != j ==> !Inside(t[j], t[i].base)
  }

  /** So no address belongs to two live blocks. */
  lemma OneBlockPerAddress(t: Table, i: nat, j: nat, addr: int)
    requires Apart(t) && i < |t| && j < |t| && Inside(t[i], addr) && Inside(t[j], addr)
    ensures i == j
  {
    assert i != j ==> !Inside(t[j], t[i].base) && !Inside(t[i], t[j].base);
  }

  /** The code's test is the right one for blocks that are not empty: an address range fits exactly if none of its
      addresses belongs to a live block. */
  lemma FitsExact(t: Table, v: u32, size: u32)
    requires size > 0 && forall k :: 0 <= k < |t| ==> t[k].size > 0
    ensures Fits(t, v, size) <==> forall k, addr :: 0 <= k < |t| && Inside(t[k], addr) ==> !(v <= addr < v + size)
  {
    if forall k, addr :: 0 <= k < |t| && Inside(t[k], addr) ==> !(v <= addr < v + size) {
      forall k | 0 <= k < |t| ensures !Overlaps(t[k], v, size) {
        assert Inside(t[k], t[k].base);
        assert Inside(t[k], v) ==> !(v <= v < v + size);
      }
    }
    if Fits(t, v, size) {
      forall k, addr | 0 <= k < |t| && Inside(t[k], addr) ensures !(v <= addr < v + size) {
        assert !Overlaps(t[k], v, size);
      }
    }
  }

  lemma ApartNew(t: Table, b: HeapBlock)
    requires Apart(t) && Fits(t, b.base, b.size)
    ensures Apart([b] + t)
  {
    var t' := [b] + t;
    forall i, j | 0 <= i < |t'| && 0 <= j < |t'| && i != j ensures !Inside(t'[j], t'[i].base) {
      if i == 0 {
        assert !Overlaps(t[j - 1], b.base, b.size);
      } else if j == 0 {
        assert !Overlaps(t[i - 1], b.base, b.size);
      } else {
        assert !Inside(t[j - 1], t[i - 1].base);
      }
    }
  }

  lemma ApartWithout(t: Table, i: nat)
    requires Apart(t) && i < |t|
    ensures Apart(Without(t, i))
  {
    var t' := Without(t, i);
    forall a, b | 0 <= a < |t'| && 0 <= b < |t'| && a != b ensures !Inside(t'[b], t'[a].base) {
      var a1, b1 := if a < i then a else a + 1, if b < i then b else b + 1;
      assert t'[a] == t[a1] && t'[b] == t[b1];
    }
  }

  /** The sum of the live sizes. */
  function Total(t: Table): nat {
    if t == [] then 0 else t[0].size + Total(t[1..])
  }

  lemma {:induction false} TotalWithout(t: Table, i: nat)
    requires i < |t|
    ensures Total(t) == Total(Without(t, i)) + t[i].size
  {
    if i == 0 {
      assert Without(t, 0) == t[1..];
    } else {
      TotalWithout(t[1..], i - 1);
      assert Without(t, i)[1..] == Without(t[1..], i - 1);
    }
  }

  /** Free bytes as the heap counts them, plus live bytes, modulo 2^32. */
  function BytesOf(size: u32, t: Table): int {
    (size + Total(t)) % WORD_LIMIT
  }

  lemma BytesAfterAlloc(size: u32, t: Table, b: HeapBlock)
    ensures BytesOf(Sub32(size, b.size), [b] + t) == BytesOf(size, t)
  {
    assert ([b] + t)[1..] == t;
  }

  lemma BytesAfterFree(size: u32, t: Table, i: nat)
    requires i < |t|
    ensures BytesOf(Add32(size, t[i].size), Without(t, i)) == BytesOf(size, t)
  {
    TotalWithout(t, i);
  }

  // ---- first fit ---------------------------------------------------------------------------------------

  predicate Aligned(align: bool, v: int) {
    align ==> v % PAGE_SIZE == 0
  }

  /** The candidate at the head of a pass. */
  function AlignUp(align: bool, v: int): int {
    if align && v % PAGE_SIZE != 0 then v - v % PAGE_SIZE + PAGE_SIZE else v
  }

  /** No admissible address in [from, v) fits. */
  ghost predicate NoneBelow(t: Table, from: int, align: bool, size: int, v: int) {
    from <= v && forall w :: from <= w < v && Aligned(align, w) ==> !Fits(t, w, size)
  }

  /** `v` is the least admissible address from `from` on at which `size` bytes overlap no live block. */
  ghost predicate LeastFit(t: Table, from: int, align: bool, size: int, v: int) {
    NoneBelow(t, from, align, size, v) && Aligned(align, v) && Fits(t, v, size)
  }

  lemma LeastFitUnique(t: Table, from: int, align: bool, size: int, v: int, w: int)
    requires LeastFit(t, from, align, size, v) && LeastFit(t, from, align, size, w)
    ensures v == w
  {
  }

  lemma AlignUpIs(align: bool, v: int)
    ensures var a := AlignUp(align, v);
      v <= a < v + PAGE_SIZE && Aligned(align, a) && forall w :: v <= w < a ==> !Aligned(align, w)
  {
    if align {
      forall w | v <= w < AlignUp(align, v) ensures w % PAGE_SIZE != 0 {
        var q := v / PAGE_SIZE;
        assert v == PAGE_SIZE * q + v % PAGE_SIZE;
        assert w - PAGE_SIZE * q == w % PAGE_SIZE by {
          assert w == PAGE_SIZE * q + (w - PAGE_SIZE * q);
        }
      }
    }
  }

  /** An overlapping block rules out every address up to its end. */
  lemma BumpKeeps(t: Table, from: int, align: bool, size: int, v: int, k: nat)
    requires NoneBelow(t, from, align, size, v) && k < |t| && Overlaps(t[k], v, size)
    ensures v <= End(t[k]) && NoneBelow(t, from, align, size, End(t[k]))
  {
    forall w | v <= w < End(t[k]) ensures !Fits(t, w, size) {
      assert Overlaps(t[k], w, size);
    }
  }

  /** The termination measure of the search: live blocks that end above the candidate. */
  function EndsAbove(t: Table, v: int): (n: nat)
    ensures n <= |t|
  {
    if t == [] then 0 else (if End(t[0]) > v then 1 else 0) + EndsAbove(t[1..], v)
  }

  lemma {:induction false} EndsAboveFalls(t: Table, v: int, w: int)
    requires v <= w
    ensures EndsAbove(t, w) <= EndsAbove(t, v)
    ensures (exists k :: 0 <= k < |t| && v < End(t[k]) <= w) ==> EndsAbove(t, w) < EndsAbove(t, v)
  {
    if t != [] {
      EndsAboveFalls(t[1..], v, w);
      if k :| 0 <= k < |t| && v < End(t[k]) <= w {
        assert k > 0 ==> t[1..][k - 1] == t[k];
      }
    }
  }

  /** The first entry that starts at `vaddr`, |t| if there is none. */
  function FindBase(t: Table, vaddr: int): (k: nat)
    ensures k <= |t|
  {
    if t == [] || t[0].base == vaddr then 0 else 1 + FindBase(t[1..], vaddr)
  }

  lemma {:induction false} FindBaseIs(t: Table, vaddr: int)
    ensures var k := FindBase(t, vaddr);
      (k < |t| ==> t[k].base == vaddr) && forall j :: 0 <= j < k ==> t[j].base != vaddr
  {
    if t != [] && t[0].base != vaddr {
      FindBaseIs(t[1..], vaddr);
      forall j | 0 <= j < FindBase(t, vaddr) ensures t[j].base != vaddr {
        assert j > 0 ==> t[j] == t[1..][j - 1];
      }
    }
  }

  /** The table after kfree(vaddr). */
  function Freed(t: Table, vaddr: int): Table {
    if vaddr == 0 || FindBase(t, vaddr) == |t| then t else Without(t, FindBase(t, vaddr))
  }

  lemma WithoutHas(t: Table, k: nat, b: HeapBlock)
    requires k < |t|
    ensures b in Without(t, k) <==> exists j :: 0 <= j < |t| && j != k && t[j] == b
  {
    if j :| 0 <= j < |t| && j != k && t[j] == b {
      assert Without(t, k)[if j < k then j else j - 1] == b;
    }
    if b in Without(t, k) {
      var j :| 0 <= j < |t| - 1 && Without(t, k)[j] == b;
      assert t[if j < k then j else j + 1] == b;
    }
  }

  /** kfree removes exactly the block that starts at `vaddr`, if no live block is empty. */
  lemma FreedExact(t: Table, vaddr: u32, b: HeapBlock)
    requires Apart(t) && vaddr != 0 && forall k :: 0 <= k < |t| ==> t[k].size > 0
    ensures b in Freed(t, vaddr) <==> b in t && b.base != vaddr
  {
    var k := FindBase(t, vaddr);
    FindBaseIs(t, vaddr);
    if k < |t| {
      WithoutHas(t, k, b);
      assert forall j :: 0 <= j < |t| && j != k ==> !Inside(t[k], t[j].base);
    }
  }

  /** kfree takes out the first block that starts at the pointer, and nothing if there is none. */
  lemma FreedFirst(t: Table, vaddr: u32, i: nat)
    requires vaddr != 0 && i <= |t| && (i < |t| ==> t[i].base == vaddr) && forall j :: 0 <= j < i ==> t[j].base != vaddr
    ensures Freed(t, vaddr) == t[..i] + if i < |t| then t[i + 1..] else []
  {
    FindBaseIs(t, vaddr);
  }

  /** Freeing what has just been allocated restores the table. */
  lemma FreeUndoesAlloc(t: Table, b: HeapBlock)
    requires b.base != 0
    ensures Freed([b] + t, b.base) == t
  {
  }

  // ---- the passes as a function ---------------------------------------------------------------------------

  datatype Passed = Passed(v: int, overlap: bool)

  /** The inner loop over blocks n - 1, ..., 0. */
  function Pass(t: Table, n: nat, v: int, size: int): (r: Passed)
    requires n <= |t|
  {
    if n == 0 then Passed(v, false)
    else if Overlaps(t[n - 1], v, size) then Passed(Pass(t, n - 1, End(t[n - 1]), size).v, true)
    else Pass(t, n - 1, v, size)
  }

  /** One round of the do-while loop. */
  function Round(t: Table, align: bool, size: int, v: int): Passed {
    Pass(t, |t|, AlignUp(align, v), size)
  }

  lemma {:induction false} PassMoves(t: Table, n: nat, v: int, size: int)
    requires n <= |t| && size >= 0
    ensures var r := Pass(t, n, v, size);
      && v <= r.v && (r.v != v ==> exists k :: 0 <= k < n && r.v == End(t[k]))
      && (!r.overlap <==> forall k :: 0 <= k < n ==> !Overlaps(t[k], v, size))
      && (!r.overlap ==> r.v == v)
      && (r.v == v <==> forall k :: 0 <= k < n && Overlaps(t[k], v, size) ==>
          t[k] == HeapBlock(t[k].base, 0) && t[k].base == v)
  {
    if n > 0 {
      PassMoves(t, n - 1, if Overlaps(t[n - 1], v, size) then End(t[n - 1]) else v, size);
      assert Overlaps(t[n - 1], v, size) ==> Pass(t, n, v, size).v == v || Pass(t, n, v, size).v > v;
    }
  }

  /** No admissible address is skipped. */
  lemma {:induction false} PassKeeps(t: Table, n: nat, from: int, align: bool, size: int, v: int)
    requires n <= |t| && NoneBelow(t, from, align, size, v)
    ensures NoneBelow(t, from, align, size, Pass(t, n, v, size).v)
  {
    if n > 0 {
      if Overlaps(t[n - 1], v, size) {
        BumpKeeps(t, from, align, size, v, n - 1);
        PassKeeps(t, n - 1, from, align, size, End(t[n - 1]));
      } else {
        PassKeeps(t, n - 1, from, align, size, v);
      }
    }
  }

  lemma RoundKeeps(t: Table, from: int, align: bool, size: int, v: int)
    requires NoneBelow(t, from, align, size, v)
    ensures NoneBelow(t, from, align, size, Round(t, align, size, v).v) && Aligned(align, AlignUp(align, v))
  {
    AlignUpIs(align, v);
    PassKeeps(t, |t|, from, align, size, AlignUp(align, v));
  }

  /** The candidate after `n` rounds. */
  function Candidate(t: Table, align: bool, size: int, v: int, n: nat): int
    decreases n
  {
    if n == 0 then v else Candidate(t, align, size, Round(t, align, size, v).v, n - 1)
  }

  /** The search that starts at `v` comes to an end. */
  ghost predicate Halts(t: Table, align: bool, size: int, v: int) {
    exists n: nat :: !Round(t, align, size, Candidate(t, align, size, v, n)).overlap
  }

  /** A round that finds an overlap and moves nowhere. */
  predicate Stuck(t: Table, align: bool, size: int, v: int) {
    Round(t, align, size, v) == Passed(v, true)
  }

  /** A round is stuck exactly on an admissible address where an empty block starts and nothing else is in the way. */
  lemma StuckExact(t: Table, align: bool, size: int, v: int)
    requires size >= 0
    ensures Stuck(t, align, size, v)
      <==> Aligned(align, v) && !Fits(t, v, size)
           && forall k :: 0 <= k < |t| && Overlaps(t[k], v, size) ==> t[k] == HeapBlock(t[k].base, 0) && t[k].base == v
  {
    AlignUpIs(align, v);
    PassMoves(t, |t|, AlignUp(align, v), size);
    if Aligned(align, v) {
      assert AlignUp(align, v) == v;
    }
  }

  lemma {:induction false} CandidateNext(t: Table, align: bool, size: int, v: int, n: nat)
    ensures Candidate(t, align, size, v, n + 1) == Round(t, align, size, Candidate(t, align, size, v, n)).v
    decreases n
  {
    if n > 0 {
      CandidateNext(t, align, size, Round(t, align, size, v).v, n - 1);
    }
  }

  /** A round that is not stuck either is the last or uses up a block that ended above the candidate. */
  lemma RoundProgress(t: Table, align: bool, size: int, v: int)
    requires size >= 0
    ensures var r := Round(t, align, size, v);
      r.overlap && r != Passed(v, true) ==> v < r.v && EndsAbove(t, r.v) < EndsAbove(t, v)
  {
    AlignUpIs(align, v);
    var a := AlignUp(align, v);
    PassMoves(t, |t|, a, size);
    var r := Round(t, align, size, v);
    if r.overlap && r.v != v {
      if r.v == a {
        var k :| 0 <= k < |t| && Overlaps(t[k], a, size);
        assert v < End(t[k]) <= r.v;
      }
      EndsAboveFalls(t, v, r.v);
    }
  }

  lemma {:induction false} HaltsIfNeverStuck(t: Table, align: bool, size: int, v: int)
    requires size >= 0 && forall n: nat :: !Stuck(t, align, size, Candidate(t, align, size, v, n))
    ensures Halts(t, align, size, v)
    decreases EndsAbove(t, v)
  {
    var r := Round(t, align, size, v);
    assert Candidate(t, align, size, v, 0) == v;
    if r.overlap {
      RoundProgress(t, align, size, v);
      forall n: nat ensures !Stuck(t, align, size, Candidate(t, align, size, r.v, n)) {
        assert Candidate(t, align, size, v, n + 1) == Candidate(t, align, size, r.v, n);
      }
      HaltsIfNeverStuck(t, align, size, r.v);
      var n: nat :| !Round(t, align, size, Candidate(t, align, size, r.v, n)).overlap;
      assert Candidate(t, align, size, v, n + 1) == Candidate(t, align, size, r.v, n);
    }
  }

  /** Once stuck, always stuck; once out of the loop, never stuck. */
  lemma {:induction false} StuckStays(t: Table, align: bool, size: int, v: int, m: nat, n: nat)
    requires size >= 0 && Stuck(t, align, size, Candidate(t, align, size, v, m))
    ensures Round(t, align, size, Candidate(t, align, size, v, n)).overlap
    decreases if n >= m then n - m else m - n
  {
    if n > m {
      StuckStays(t, align, size, v, m, n - 1);
      CandidateNext(t, align, size, v, n - 1);
      StuckAfter(t, align, size, v, m, n);
    } else if n < m {
      StuckStays(t, align, size, v, m, n + 1);
      CandidateNext(t, align, size, v, n);
      var c := Candidate(t, align, size, v, n);
      AlignUpIs(align, c);
      PassMoves(t, |t|, AlignUp(align, c), size);
      AlignUpIs(align, AlignUp(align, c));
    }
  }

  lemma {:induction false} StuckAfter(t: Table, align: bool, size: int, v: int, m: nat, n: nat)
    requires m <= n && Stuck(t, align, size, Candidate(t, align, size, v, m))
    ensures Candidate(t, align, size, v, n) == Candidate(t, align, size, v, m)
  {
    if n > m {
      StuckAfter(t, align, size, v, m, n - 1);
      CandidateNext(t, align, size, v, n - 1);
    }
  }

  /** The search from `v` comes to a stuck address. */
  ghost predicate GetsStuck(t: Table, align: bool, size: int, v: int) {
    exists n: nat :: Stuck(t, align, size, Candidate(t, align, size, v, n))
  }

  /** The search ends exactly if it never comes to a stuck address. */
  lemma HaltsIffNotStuck(t: Table, align: bool, size: int, v: int)
    requires size >= 0
    ensures Halts(t, align, size, v) <==> !GetsStuck(t, align, size, v)
  {
    if GetsStuck(t, align, size, v) {
      var m: nat :| Stuck(t, align, size, Candidate(t, align, size, v, m));
      forall n: nat ensures Round(t, align, size, Candidate(t, align, size, v, n)).overlap {
        StuckStays(t, align, size, v, m, n);
      }
    } else {
      HaltsIfNeverStuck(t, align, size, v);
    }
  }

  /** A trap for a search from `from` on: an admissible address with no fit before it, where nothing is in the way but
      empty blocks that start there. */
  ghost predicate Trap(t: Table, align: bool, size: int, from: int, s: int) {
    && Aligned(align, s) && NoneBelow(t, from, align, size, s) && !Fits(t, s, size)
    && forall k :: 0 <= k < |t| && Overlaps(t[k], s, size) ==> t[k] == HeapBlock(t[k].base, 0) && t[k].base == s
  }

  lemma {:induction false} CandidateKeeps(t: Table, from: int, align: bool, size: int, v: int, n: nat)
    requires NoneBelow(t, from, align, size, v)
    ensures NoneBelow(t, from, align, size, Candidate(t, align, size, v, n))
    decreases n
  {
    if n > 0 {
      RoundKeeps(t, from, align, size, v);
      CandidateKeeps(t, from, align, size, Round(t, align, size, v).v, n - 1);
    }
  }

  /** No block in the way of a candidate up to `s` ends behind a trap `s`. */
  lemma {:induction false} PassStays(t: Table, n: nat, align: bool, size: int, from: int, s: int, v: int)
    requires n <= |t| && size >= 0 && Trap(t, align, size, from, s) && v <= s
    ensures Pass(t, n, v, size).v <= s
  {
    if n > 0 {
      var hit := Overlaps(t[n - 1], v, size);
      PassStays(t, n - 1, align, size, from, s, if hit then End(t[n - 1]) else v);
    }
  }

  lemma AlignStays(align: bool, v: int, s: int)
    requires v <= s && Aligned(align, s)
    ensures AlignUp(align, v) <= s
  {
    AlignUpIs(align, v);
  }

  lemma {:induction false} CandidateStays(t: Table, align: bool, size: int, from: int, s: int, v: int, n: nat)
    requires size >= 0 && Trap(t, align, size, from, s) && v <= s
    ensures Candidate(t, align, size, v, n) <= s
    decreases n
  {
    if n > 0 {
      AlignStays(align, v, s);
      PassStays(t, |t|, align, size, from, s, AlignUp(align, v));
      CandidateStays(t, align, size, from, s, Round(t, align, size, v).v, n - 1);
    }
  }

  /** The search that starts at `from` comes to an end exactly if there is no trap. */
  lemma HaltsExact(t: Table, align: bool, size: int, from: int)
    requires size >= 0
    ensures Halts(t, align, size, from) <==> !exists s :: Trap(t, align, size, from, s)
  {
    HaltsIffNotStuck(t, align, size, from);
    if GetsStuck(t, align, size, from) {
      var n: nat :| Stuck(t, align, size, Candidate(t, align, size, from, n));
      var s := Candidate(t, align, size, from, n);
      CandidateKeeps(t, from, align, size, from, n);
      StuckExact(t, align, size, s);
      assert Trap(t, align, size, from, s);
    }
    if s :| Trap(t, align, size, from, s) {
      forall n: nat ensures Round(t, align, size, Candidate(t, align, size, from, n)).overlap {
        var c := Candidate(t, align, size, from, n);
        CandidateStays(t, align, size, from, s, from, n);
        CandidateKeeps(t, from, align, size, from, n);
        AlignUpIs(align, c);
        AlignStays(align, c, s);
        PassMoves(t, |t|, AlignUp(align, c), size);
      }
    }
  }

  /** So a search always ends if no live block is empty, that is, if no kmalloc(0) is outstanding. */
  lemma NoEmptyBlocks(t: Table, align: bool, size: int, from: int)
    requires size >= 0 && forall k :: 0 <= k < |t| ==> t[k].size > 0
    ensures Halts(t, align, size, from)
  {
    HaltsExact(t, align, size, from);
  }

  /** kmalloc(0) on an empty heap, and kmalloc(1) never comes back. */
  lemma EmptyBlockHangs(start: nat)
    ensures LeastFit([], start + HEAP_HEADER, false, 0, start + HEAP_HEADER)
    ensures !Halts([HeapBlock(start + HEAP_HEADER, 0)], false, 1, start + HEAP_HEADER)
  {
    var t := [HeapBlock(start + HEAP_HEADER, 0)];
    assert Overlaps(t[0], start + HEAP_HEADER, 1);
    assert Trap(t, false, 1, start + HEAP_HEADER, start + HEAP_HEADER);
    HaltsExact(t, false, 1, start + HEAP_HEADER);
  }

  /** An empty block need not hurt: here no request of any size hangs. */
  lemma EmptyBlockHarmless(size: nat)
    ensures Halts([HeapBlock(100, 0), HeapBlock(150, 100)], false, size, HEAP_HEADER)
  {
    var t := [HeapBlock(100, 0), HeapBlock(150, 100)];
    HaltsExact(t, false, size, HEAP_HEADER);
    forall s ensures !Trap(t, false, size, HEAP_HEADER, s) {
      assert Overlaps(t[0], s, size) && s == 100 && !Overlaps(t[1], s, size) ==> Fits(t, HEAP_HEADER, size);
    }
  }

  /** A search that goes on after a round ends if it ends at all. */
  lemma HaltsNext(t: Table, align: bool, size: int, v: int)
    requires size >= 0 && Halts(t, align, size, v) && Round(t, align, size, v).overlap
    ensures Halts(t, align, size, Round(t, align, size, v).v) && Round(t, align, size, v) != Passed(v, true)
  {
    var r := Round(t, align, size, v);
    var n: nat :| !Round(t, align, size, Candidate(t, align, size, v, n)).overlap;
    assert n > 0 by {
      assert Candidate(t, align, size, v, 0) == v;
    }
    assert Candidate(t, align, size, v, n) == Candidate(t, align, size, r.v, n - 1);
    if Stuck(t, align, size, v) {
      assert Candidate(t, align, size, v, 0) == v;
      StuckStays(t, align, size, v, 0, n);
    }
  }
}
