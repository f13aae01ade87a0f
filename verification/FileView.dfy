/** What each elementary disk step of ext2 does to the whole volume: it keeps the ownership
    invariant and leaves every byte of every file alone, except for the one block written. */
module FileView {
  import opened Machine
  import opened PointerTree
  import opened OwnedTree
  import opened Volume
  import opened InodeTable

  /** The bytes found at a leaf position; a missing block reads as block 0. */
  function Content(disk: Disk, inodes: Inodes, q: Pos): seq<byte> {
    if At(disk, inodes, q) < |disk| then disk[At(disk, inodes, q)] else []
  }

  ghost predicate SameContent(sh: Shape, disk: Disk, inodes: Inodes, disk': Disk, inodes': Inodes) {
    forall q :: IsPos(sh, q) && IsLeaf(q) ==> Content(disk', inodes', q) == Content(disk, inodes, q)
  }

  ghost predicate SameTree(sh: Shape, disk: Disk, inodes: Inodes, disk': Disk, inodes': Inodes) {
    forall q :: IsPos(sh, q) ==> At(disk', inodes', q) == At(disk, inodes, q)
  }

  ghost predicate SameSlots(g: Geo, sh: Shape, v: Vol, v': Vol) {
    forall ino: nat :: ino in sh.files ==> Slot(g, v', ino) == Slot(g, v, ino)
  }

  /** `used` are the blocks marked in the bitmaps. */
  ghost predicate Marks(g: Geo, v: Vol, used: set<nat>) {
    used == if g.bpg > 0 then Used(g, v) else {}
  }

  /** A full check of the volume. */
  ghost function CheckVolume(g: Geo, sh: Shape, v: Vol, inodes: Inodes): Verdict {
    if forall used :: Marks(g, v, used) ==>
      Layout(g, sh, |v.disk|, v.bgds) && Counted(g, v) && BgdsOnDisk(v) && Inv(sh, v.disk, inodes, used)
    then Clean else Corrupt
  }

  /** The volume is sound while `inodes` are the current inode images. */
  ghost predicate Good(g: Geo, sh: Shape, v: Vol, inodes: Inodes) {
    CheckVolume(g, sh, v, inodes).Clean?
  }

  lemma MakeGood(g: Geo, sh: Shape, v: Vol, inodes: Inodes)
    requires Layout(g, sh, |v.disk|, v.bgds) && Counted(g, v) && BgdsOnDisk(v) && Inv(sh, v.disk, inodes, Used(g, v))
    ensures Good(g, sh, v, inodes)
  {
  }

  /** What soundness means. */
  lemma Owned(g: Geo, sh: Shape, v: Vol, inodes: Inodes)
    requires Good(g, sh, v, inodes)
    ensures Layout(g, sh, |v.disk|, v.bgds) && LayoutIs(g, sh, |v.disk|, v.bgds, 0)
    ensures Counted(g, v) && CountedIs(g, v, 0) && Inv(sh, v.disk, inodes, Used(g, v)) && BgdsOnDisk(v)
  {
    if g.bpg > 0 {
      assert Marks(g, v, Used(g, v));
    } else {
      assert Marks(g, v, {});
    }
    LayoutMeans(g, sh, |v.disk|, v.bgds);
    CountedMeans(g, v);
  }

  lemma GoodLayout(g: Geo, sh: Shape, v: Vol, inodes: Inodes)
    requires Good(g, sh, v, inodes)
    ensures Layout(g, sh, |v.disk|, v.bgds) && Counted(g, v) && Suited(g, sh) && sh.p > 0
  {
    Owned(g, sh, v, inodes);
    LayoutRadix(g, sh, |v.disk|, v.bgds);
  }

  /** A block just taken from the bitmap: marked, all zero, and not yet owned. */
  ghost predicate Fresh(g: Geo, sh: Shape, v: Vol, inodes: Inodes, n: nat) {
    && g.bpg > 0 && 0 < n < |v.disk| && n in Used(g, v) && n !in sh.meta
    && AllZero(v.disk[n]) && Unowned(sh, v.disk, inodes, n)
  }

  // ---- taking a block --------------------------------------------------------------------------

  lemma SlotsKept(g: Geo, sh: Shape, v: Vol, v': Vol)
    requires Layout(g, sh, |v.disk|, v.bgds) && |v'.disk| == |v.disk| && SamePlaces(v.bgds, v'.bgds)
    requires forall j: nat, n: nat :: InTable(g, v.bgds, j, n) && n < |v.disk| ==> v'.disk[n] == v.disk[n]
    ensures SameSlots(g, sh, v, v')
  {
    LayoutMeans(g, sh, |v.disk|, v.bgds);
    forall ino: nat | ino in sh.files ensures Slot(g, v', ino) == Slot(g, v, ino) {
      SlotPlace(g, sh, v, ino);
      assert SlotBlock(g, v'.bgds, ino) == SlotBlock(g, v.bgds, ino);
    }
  }

  /** ext2_alloc_block hands out a fresh block and disturbs no file. */
  lemma AllocStep(g: Geo, sh: Shape, v: Vol, inodes: Inodes, i: nat, k: nat)
    requires Good(g, sh, v, inodes) && CanTake(g, sh, v, i, k)
    ensures var v' := Take(g, v, i, k);
      && Good(g, sh, v', inodes) && Fresh(g, sh, v', inodes, NumberOf(g.bpg, i, k))
         && IsFree(g, v, NumberOf(g.bpg, i, k))
      && |v'.disk| == |v.disk|
      && SameTree(sh, v.disk, inodes, v'.disk, inodes) && SameContent(sh, v.disk, inodes, v'.disk, inodes)
      && SameSlots(g, sh, v, v')
      && FreeCount(v'.bgds) == FreeCount(v.bgds) - 1
  {
    Owned(g, sh, v, inodes);
    TakeFits(g, sh, v, i, k);
    TakeFrame(g, sh, v, i, k);
    TakeCount(g, sh, v, i, k);
    TakeCounted(g, sh, v, i, k);
    var v', n := Take(g, v, i, k), NumberOf(g.bpg, i, k);
    LayoutKept(g, sh, |v.disk|, v.bgds, v'.bgds);
    SlotsKept(g, sh, v, v');
    TakeUsed(g, sh, v, i, k);
    TakeMounted(g, sh, v, i, k);
    MetaStep(sh, v.disk, inodes, Used(g, v), v'.disk, Used(g, v'), n);
    MakeGood(g, sh, v', inodes);
  }

  /** Rewriting blocks of the volume's own and marking one more block. */
  lemma MetaStep(sh: Shape, disk: Disk, inodes: Inodes, used: set<nat>, disk': Disk, used': set<nat>, n: nat)
    requires Inv(sh, disk, inodes, used) && |disk'| == |disk|
    requires forall m :: 0 <= m < |disk| ==> |disk'[m]| == |disk[m]|
    requires forall m :: 0 <= m < |disk| && (m == 0 || m !in sh.meta) ==> disk'[m] == disk[m]
    requires n < |disk| && n !in used && used' == used + {n}
    ensures Inv(sh, disk', inodes, used')
    ensures SameTree(sh, disk, inodes, disk', inodes) && SameContent(sh, disk, inodes, disk', inodes)
    ensures n !in sh.meta && 0 < n && AllZero(disk'[n]) && Unowned(sh, disk', inodes, n)
  {
    forall q | IsPos(sh, q) ensures At(disk', inodes, q) == At(disk, inodes, q) {
      TreeFrame(sh, disk, inodes, disk', q);
    }
  }

  // ---- storing a pointer ---------------------------------------------------------------------------

  /** Writing a block that is no bitmap changes neither what is marked nor the counts. */
  lemma MarksKept(g: Geo, sh: Shape, v: Vol, disk': Disk)
    requires Layout(g, sh, |v.disk|, v.bgds) && Counted(g, v) && |disk'| == |v.disk| && |v.bgds| == g.groups
    requires forall i :: 0 <= i < g.groups ==> v.bgds[i].bitmapBlock < |v.disk|
    requires g.bpg > 0 && forall i :: 0 <= i < g.groups ==>
      disk'[v.bgds[i].bitmapBlock] == v.disk[v.bgds[i].bitmapBlock]
    ensures Counted(g, Vol(disk', v.bgds)) && Used(g, Vol(disk', v.bgds)) == Used(g, v)
  {
    CountedMeans(g, v);
    var v' := Vol(disk', v.bgds);
    assert forall i: nat, k: nat :: i < g.groups ==> (MarkedBit(v', i, k) <==> MarkedBit(v, i, k));
    assert forall n: nat :: IsFree(g, v', n) <==> IsFree(g, v, n);
    forall i | 0 <= i < g.groups ensures GroupCounted(g, v', i) {
      assert GroupCounted(g, v, i);
    }
    assert CountedIs(g, v', 0);
  }

  /** A file's block is none of the volume's own areas. */
  lemma FileBlockApart(g: Geo, sh: Shape, v: Vol, inodes: Inodes, n: nat)
    requires Good(g, sh, v, inodes) && n !in sh.meta && n < |v.disk|
    ensures |v.bgds| == g.groups && forall i :: 0 <= i < g.groups ==> v.bgds[i].bitmapBlock != n
    ensures forall j: nat :: !InTable(g, v.bgds, j, n)
    ensures !(2 <= n < 2 + g.bgdBlocks)
  {
    Owned(g, sh, v, inodes);
    assert forall i :: 0 <= i < g.groups ==> OwnArea(g, sh, |v.disk|, v.bgds[i].bitmapBlock);
  }

  lemma Radix(g: Geo, sh: Shape, v: Vol, inodes: Inodes)
    requires Good(g, sh, v, inodes)
    ensures Suited(g, sh) && sh.p > 0
  {
    Owned(g, sh, v, inodes);
    LayoutRadix(g, sh, |v.disk|, v.bgds);
  }

  lemma NotMeta(g: Geo, sh: Shape, v: Vol, inodes: Inodes, q: Pos)
    requires Good(g, sh, v, inodes) && IsPos(sh, q) && At(v.disk, inodes, q) != 0
    ensures At(v.disk, inodes, q) !in sh.meta && At(v.disk, inodes, q) < |v.disk|
    ensures g.bs > 0 && g.bs * |v.disk| < WORD_LIMIT && g.bs == 4 * sh.p
  {
    Owned(g, sh, v, inodes);
  }

  lemma InRange(g: Geo, sh: Shape, v: Vol, inodes: Inodes, q: Pos)
    requires Good(g, sh, v, inodes) && IsPos(sh, q)
    ensures At(v.disk, inodes, q) < |v.disk| && g.bs > 0 && g.bs * |v.disk| < WORD_LIMIT
  {
    Owned(g, sh, v, inodes);
  }

  /** The volume after storing block number `n` at position `q`. */
  function Store(v: Vol, inodes: Inodes, q: Pos, n: u32): Vol {
    v.(disk := StoreDisk(v.disk, inodes, q, n))
  }

  /** The image of the inode itself after a store. */
  function StoreRaw(inodes: Inodes, q: Pos, d: u32): seq<byte>
    requires q.ino in inodes
  {
    StoreInodes(inodes, q, d)[q.ino]
  }

  /** Hooking a fresh block into the tree where a pointer is missing. */
  lemma StoreStep(g: Geo, sh: Shape, v: Vol, inodes: Inodes, q: Pos, n: u32)
    requires Good(g, sh, v, inodes) && IsPos(sh, q) && Reachable(v.disk, inodes, q)
    requires At(v.disk, inodes, q) == 0 && Fresh(g, sh, v, inodes, n)
    ensures var v', inodes' := Store(v, inodes, q, n), StoreInodes(inodes, q, n);
      && Good(g, sh, v', inodes') && SameSlots(g, sh, v, v') && |v'.disk| == |v.disk|
      && SameContent(sh, v.disk, inodes, v'.disk, inodes')
      && (forall r :: IsPos(sh, r) ==> At(v'.disk, inodes', r) == if r == q then n else At(v.disk, inodes, r))
  {
    Owned(g, sh, v, inodes);
    var v', inodes' := Store(v, inodes, q, n), StoreInodes(inodes, q, n);
    forall r | IsPos(sh, r)
      ensures At(v'.disk, inodes', r) == if r == q then n else At(v.disk, inodes, r)
    {
      StoreAt(sh, v.disk, inodes, Used(g, v), q, n, r);
    }
    StoreInv(sh, v.disk, inodes, Used(g, v), q, n);
    StoreContent(sh, v.disk, inodes, Used(g, v), q, n);
    if q.digits != [] {
      ParentIsPos(sh, q);
      FileBlockApart(g, sh, v, inodes, At(v.disk, inodes, Parent(q)));
    }
    MarksKept(g, sh, v, v'.disk);
    BgdsKept(g, sh, v, v');
    SlotsKept(g, sh, v, v');
  }

  lemma StoreContent(sh: Shape, disk: Disk, inodes: Inodes, used: set<nat>, q: Pos, n: u32)
    requires Inv(sh, disk, inodes, used) && IsPos(sh, q) && Reachable(disk, inodes, q)
    requires At(disk, inodes, q) == 0 && n < |disk| && AllZero(disk[n]) && Unowned(sh, disk, inodes, n)
    ensures SameContent(sh, disk, inodes, StoreDisk(disk, inodes, q, n), StoreInodes(inodes, q, n))
  {
    var disk', inodes' := StoreDisk(disk, inodes, q, n), StoreInodes(inodes, q, n);
    forall r | IsPos(sh, r) && IsLeaf(r) ensures Content(disk', inodes', r) == Content(disk, inodes, r) {
      StoreAt(sh, disk, inodes, used, q, n, r);
      if q.digits != [] {
        ParentIsPos(sh, q);
        assert At(disk, inodes, r) != At(disk, inodes, Parent(q));
        assert At(disk, inodes, Parent(q)) != n;
      }
      if r == q {
        assert disk[n] == disk[0];
      }
    }
  }

  // ---- writing a file block ---------------------------------------------------------------------------

  lemma DataTree(sh: Shape, disk: Disk, inodes: Inodes, used: set<nat>, q: Pos, data: seq<byte>)
    requires Inv(sh, disk, inodes, used) && IsPos(sh, q) && IsLeaf(q) && At(disk, inodes, q) != 0 && |data| == 4 * sh.p
    ensures At(disk, inodes, q) < |disk|
    ensures var disk' := disk[At(disk, inodes, q) := data];
      && Inv(sh, disk', inodes, used) && SameTree(sh, disk, inodes, disk', inodes)
      && (forall r :: IsPos(sh, r) && IsLeaf(r) ==>
            Content(disk', inodes, r) == if r == q then data else Content(disk, inodes, r))
  {
    var n := At(disk, inodes, q);
    var disk' := disk[n := data];
    forall r | IsPos(sh, r) ensures At(disk', inodes, r) == At(disk, inodes, r) {
      TreeFrame(sh, disk, inodes, disk', r);
    }
  }

  /** Writing the block of a leaf changes the bytes at that leaf and at no other. */
  lemma DataStep(g: Geo, sh: Shape, v: Vol, inodes: Inodes, q: Pos, data: seq<byte>)
    requires Good(g, sh, v, inodes) && IsPos(sh, q) && IsLeaf(q) && At(v.disk, inodes, q) != 0 && |data| == g.bs
    ensures At(v.disk, inodes, q) < |v.disk|
    ensures var v' := v.(disk := v.disk[At(v.disk, inodes, q) := data]);
      && Good(g, sh, v', inodes) && SameSlots(g, sh, v, v')
      && SameTree(sh, v.disk, inodes, v'.disk, inodes)
      && (forall r :: IsPos(sh, r) && IsLeaf(r) ==>
            Content(v'.disk, inodes, r) == if r == q then data else Content(v.disk, inodes, r))
  {
    Owned(g, sh, v, inodes);
    var n := At(v.disk, inodes, q);
    var v' := v.(disk := v.disk[n := data]);
    DataTree(sh, v.disk, inodes, Used(g, v), q, data);
    FileBlockApart(g, sh, v, inodes, n);
    MarksKept(g, sh, v, v'.disk);
    BgdsKept(g, sh, v, v');
    SlotsKept(g, sh, v, v');
  }

  // ---- writing an inode -----------------------------------------------------------------------------------

  /** Writing an inode slot changes that slot and disturbs no file. */
  lemma SlotStep(g: Geo, sh: Shape, v: Vol, inodes: Inodes, ino: u32, raw: seq<byte>)
    requires Good(g, sh, v, inodes) && ino in sh.files && |raw| == g.isize
    ensures var v' := WriteSlot(g, v, ino, raw);
      && Good(g, sh, v', inodes) && SameTree(sh, v.disk, inodes, v'.disk, inodes)
      && SameContent(sh, v.disk, inodes, v'.disk, inodes)
      && (forall jno: nat :: jno in sh.files ==> Slot(g, v', jno) == if jno == ino then raw else Slot(g, v, jno))
  {
    Owned(g, sh, v, inodes);
    SlotPlace(g, sh, v, ino);
    var v' := WriteSlot(g, v, ino, raw);
    forall r | IsPos(sh, r) ensures At(v'.disk, inodes, r) == At(v.disk, inodes, r) {
      TreeFrame(sh, v.disk, inodes, v'.disk, r);
    }
    MarksKept(g, sh, v, v'.disk);
    BgdsKept(g, sh, v, v');
    forall jno: nat | jno in sh.files ensures Slot(g, v', jno) == if jno == ino then raw else Slot(g, v, jno) {
      SlotReadBack(g, sh, v, ino, raw, jno);
    }
  }

  // ---- growing a file -----------------------------------------------------------------------------------

  /** Words of an inode that storing block numbers does not touch: all but num_sectors and blocks[]. */
  ghost predicate SameHead(raw: seq<byte>, raw': seq<byte>) {
    && |raw'| == |raw|
    && (forall k: nat ::
          4 * k + 4 <= |raw| && k != SECTORS_WORD && !(BLOCKS_WORD <= k < BLOCKS_WORD + ROOTS)
          ==> Word(raw', k) == Word(raw, k))
  }

  /** All images but that of `ino` are the same, and that one has kept its head. */
  ghost predicate SameHeads(inodes: Inodes, inodes': Inodes, ino: nat) {
    && (forall jno :: jno in inodes ==> jno in inodes' && SameHead(inodes[jno], inodes'[jno]))
    && (forall jno :: jno in inodes && jno != ino ==> inodes'[jno] == inodes[jno])
  }

  ghost predicate GrownByIs(g: Geo, sh: Shape, v: Vol, inodes: Inodes, v': Vol, inodes': Inodes, ino: nat, ps: set<Pos>,
                             taken: nat, spent: nat, k: nat)
  {
    && Good(g, sh, v', inodes') && |v'.disk| == |v.disk|
       && SameContent(sh, v.disk, inodes, v'.disk, inodes')
       && Appeared(sh, v.disk, inodes, v'.disk, inodes', ps) && (forall q :: q in ps ==> !IsLeaf(q))
       && (forall n: nat :: Fresh(g, sh, v, inodes, n) && n != spent ==> Fresh(g, sh, v', inodes', n))
       && SameHeads(inodes, inodes', ino)
       && FreeCount(v'.bgds) + taken == FreeCount(v.bgds)
  }

  /** From (v, inodes) to (v', inodes') `taken` free blocks have been handed out: every file reads the same, the pointer
      blocks at `ps` have appeared where there were none, and no fresh block but `spent` is used up. */
  ghost predicate GrownBy(g: Geo, sh: Shape, v: Vol, inodes: Inodes, v': Vol, inodes': Inodes, ino: nat, ps: set<Pos>,
                          taken: nat, spent: nat)
  {
    (if forall k: nat {:trigger Unfold(k)}
         {:trigger GrownByIs(g, sh, v, inodes, v', inodes', ino, ps, taken, spent, k)} ::
       GrownByIs(g, sh, v, inodes, v', inodes', ino, ps, taken, spent, k)
     then Clean else Corrupt).Clean?
  }

  /** Exactly as many blocks have been taken as pointer blocks were missing. */
  ghost predicate Grown(g: Geo, sh: Shape, v: Vol, inodes: Inodes, v': Vol, inodes': Inodes, ino: nat, ps: set<Pos>) {
    GrownBy(g, sh, v, inodes, v', inodes', ino, ps, |Lacking(v.disk, inodes, ps)|, 0)
  }

  ghost predicate RoomIs(v: Vol, inodes: Inodes, ps: set<Pos>) {
    FreeCount(v.bgds) >= |Lacking(v.disk, inodes, ps)|
  }

  /** There are as many free blocks as are lacking among `ps`. */
  ghost predicate Room(v: Vol, inodes: Inodes, ps: set<Pos>) {
    (if RoomIs(v, inodes, ps) then Clean else Corrupt).Clean?
  }

  /** Room for everything that is lacking on the way to `q`, with `q` itself or without it. */
  ghost predicate RoomWay(v: Vol, inodes: Inodes, q: Pos) {
    (if Room(v, inodes, Way(q)) then Clean else Corrupt).Clean?
  }

  ghost predicate RoomAbove(v: Vol, inodes: Inodes, q: Pos) {
    (if Room(v, inodes, Above(q)) then Clean else Corrupt).Clean?
  }

  lemma GrownGood(g: Geo, sh: Shape, v: Vol, i: Inodes, v1: Vol, i1: Inodes, ino: nat, ps: set<Pos>, taken: nat,
                  spent: nat)
    requires GrownBy(g, sh, v, i, v1, i1, ino, ps, taken, spent)
    ensures Good(g, sh, v1, i1) && |v1.disk| == |v.disk|
  {
    assert Unfold(0);
  }

  lemma GrownTrans(g: Geo, sh: Shape, v: Vol, i: Inodes, v1: Vol, i1: Inodes, v2: Vol, i2: Inodes, ino: nat,
                   ps1: set<Pos>, ps2: set<Pos>, t1: nat, t2: nat, s1: nat, s2: nat, s: nat)
    requires GrownBy(g, sh, v, i, v1, i1, ino, ps1, t1, s1) && GrownBy(g, sh, v1, i1, v2, i2, ino, ps2, t2, s2)
    requires (s1 == 0 || s1 == s) && (s2 == 0 || s2 == s || !Fresh(g, sh, v, i, s2))
    ensures GrownBy(g, sh, v, i, v2, i2, ino, ps1 + ps2, t1 + t2, s)
  {
    assert Unfold(0);
    assert !Fresh(g, sh, v, i, 0) && !Fresh(g, sh, v1, i1, 0);
    forall jno | jno in i ensures SameHead(i[jno], i2[jno]) {
      assert SameHead(i[jno], i1[jno]) && SameHead(i1[jno], i2[jno]);
    }
    AppearedBoth(sh, v.disk, i, v1.disk, i1, v2.disk, i2, ps1, ps2);
  }

  lemma GrownBoth(g: Geo, sh: Shape, v: Vol, i: Inodes, v1: Vol, i1: Inodes, v2: Vol, i2: Inodes, ino: nat,
                  ps1: set<Pos>, ps2: set<Pos>)
    requires Grown(g, sh, v, i, v1, i1, ino, ps1) && Grown(g, sh, v1, i1, v2, i2, ino, ps2)
    ensures Grown(g, sh, v, i, v2, i2, ino, ps1 + ps2)
  {
    assert Unfold(0);
    LackingBoth(sh, v.disk, i, v1.disk, i1, ps1, ps2);
    GrownTrans(g, sh, v, i, v1, i1, v2, i2, ino, ps1, ps2, |Lacking(v.disk, i, ps1)|, |Lacking(v1.disk, i1, ps2)|, 0, 0,
               0);
  }

  /** What room there is for `ps2` after `ps1` have grown. */
  lemma RoomBoth(g: Geo, sh: Shape, v: Vol, i: Inodes, v1: Vol, i1: Inodes, ino: nat, ps1: set<Pos>, ps2: set<Pos>)
    requires Grown(g, sh, v, i, v1, i1, ino, ps1) && forall q :: q in ps2 ==> IsPos(sh, q)
    ensures Room(v1, i1, ps2) <==> Room(v, i, ps1 + ps2)
  {
    assert Unfold(0);
    LackingBoth(sh, v.disk, i, v1.disk, i1, ps1, ps2);
  }

  lemma RoomMore(v: Vol, i: Inodes, ps: set<Pos>, qs: set<Pos>)
    requires ps <= qs
    ensures Room(v, i, qs) ==> Room(v, i, ps)
  {
    assert Unfold(0);
    LackingMore(v.disk, i, ps, qs);
  }

  /** Nothing is missing. */
  lemma GrownNothing(g: Geo, sh: Shape, v: Vol, inodes: Inodes, ino: nat, ps: set<Pos>)
    requires Good(g, sh, v, inodes) && forall q :: q in ps ==> IsPos(sh, q) && !IsLeaf(q) && At(v.disk, inodes, q) != 0
    ensures Grown(g, sh, v, inodes, v, inodes, ino, ps) && Room(v, inodes, ps)
  {
    assert Unfold(0);
    assert Lacking(v.disk, inodes, ps) == {};
  }

  /** Exactly a missing pointer block asks for room. */
  lemma LackingOne(disk: Disk, inodes: Inodes, q: Pos)
    ensures |Lacking(disk, inodes, {q})| == if At(disk, inodes, q) == 0 then 1 else 0
  {
    assert Unfold(0);
    assert Lacking(disk, inodes, {q}) == if At(disk, inodes, q) == 0 then {q} else {};
  }

  /** ext2_alloc_block, whatever bit it finds. */
  lemma AllocatedStep(g: Geo, sh: Shape, v: Vol, inodes: Inodes, no: nat, ino: nat)
    requires Good(g, sh, v, inodes) && g.bpg > 0 && IsFree(g, v, no)
    ensures AllocatedTo(g, sh, v, inodes, TakeNumber(g, v, no), no, ino)
  {
    var i, k := GroupOf(g.bpg, no), BitIn(g.bpg, no);
    SameNumber(g.bpg, i, k, no);
    FreeCanTake(g, sh, v, inodes, no);
    AllocGrown(g, sh, v, inodes, i, k, ino);
  }

  lemma FreeCanTake(g: Geo, sh: Shape, v: Vol, inodes: Inodes, no: nat)
    requires Good(g, sh, v, inodes) && g.bpg > 0 && IsFree(g, v, no)
    ensures CanTake(g, sh, v, GroupOf(g.bpg, no), BitIn(g.bpg, no))
  {
    Owned(g, sh, v, inodes);
    Basics(g, sh, |v.disk|, v.bgds);
  }

  /** `v'` is `v` with block `no` handed out. */
  ghost predicate AllocatedTo(g: Geo, sh: Shape, v: Vol, inodes: Inodes, v': Vol, no: nat, ino: nat) {
    && GrownBy(g, sh, v, inodes, v', inodes, ino, {}, 1, 0)
    && SameTree(sh, v.disk, inodes, v'.disk, inodes) && SameSlots(g, sh, v, v') && Fresh(g, sh, v', inodes, no)
    && FreeCount(v'.bgds) == FreeCount(v.bgds) - 1
    && (forall n :: 0 <= n < |v.disk| && n !in sh.meta && n < |v'.disk| ==> v'.disk[n] == v.disk[n])
  }

  lemma AllocGrown(g: Geo, sh: Shape, v: Vol, inodes: Inodes, i: nat, k: nat, ino: nat)
    requires Good(g, sh, v, inodes) && CanTake(g, sh, v, i, k)
    ensures AllocatedTo(g, sh, v, inodes, Take(g, v, i, k), NumberOf(g.bpg, i, k), ino)
  {
    AllocStep(g, sh, v, inodes, i, k);
    AllocFresh(g, sh, v, inodes, i, k);
    MakeGrown(g, sh, v, inodes, Take(g, v, i, k), inodes, ino, 1);
  }

  lemma MakeGrown(g: Geo, sh: Shape, v: Vol, inodes: Inodes, v': Vol, inodes': Inodes, ino: nat, taken: nat)
    requires Good(g, sh, v', inodes') && |v'.disk| == |v.disk|
    requires SameContent(sh, v.disk, inodes, v'.disk, inodes') && SameTree(sh, v.disk, inodes, v'.disk, inodes')
    requires forall n: nat :: Fresh(g, sh, v, inodes, n) ==> Fresh(g, sh, v', inodes', n)
    requires SameHeads(inodes, inodes', ino) && FreeCount(v'.bgds) + taken == FreeCount(v.bgds)
    ensures GrownBy(g, sh, v, inodes, v', inodes', ino, {}, taken, 0)
  {
  }

  lemma AllocFresh(g: Geo, sh: Shape, v: Vol, inodes: Inodes, i: nat, k: nat)
    requires Good(g, sh, v, inodes) && CanTake(g, sh, v, i, k)
    requires SameTree(sh, v.disk, inodes, Take(g, v, i, k).disk, inodes)
    ensures forall n: nat :: Fresh(g, sh, v, inodes, n) ==> Fresh(g, sh, Take(g, v, i, k), inodes, n)
    ensures forall n :: 0 <= n < |v.disk| && n !in sh.meta ==> Take(g, v, i, k).disk[n] == v.disk[n]
  {
    TakeFrame(g, sh, v, i, k);
    TakeUsed(g, sh, v, i, k);
  }

  /** Some block is free exactly when some counter is positive. */
  lemma SomeFree(g: Geo, v: Vol)
    requires 0 < g.bpg <= 8 * g.bs && Counted(g, v)
    ensures NoneFree(g, v) <==> FreeCount(v.bgds) == 0
  {
    CountedMeans(g, v);
    FreeCountNone(v.bgds);
    if FreeCount(v.bgds) == 0 {
      forall n: nat ensures !IsFree(g, v, n) {
        if GroupOf(g.bpg, n) < g.groups {
          EmptyGroup(g, v, GroupOf(g.bpg, n));
        }
      }
    } else {
      var i :| 0 <= i < |v.bgds| && v.bgds[i].freeBlocks != 0;
      assert GroupCounted(g, v, i);
      var k := ZeroBitsFind(v.disk[v.bgds[i].bitmapBlock], 8 * g.bs);
      BitInGroup(g, v, i, k);
      SameNumber(g.bpg, i, k, NumberOf(g.bpg, i, k));
      assert IsFree(g, v, NumberOf(g.bpg, i, k));
    }
  }

  lemma {:induction false} ZeroBitsFind(b: seq<byte>, n: nat) returns (k: nat)
    requires ZeroBits(b, n) > 0
    ensures k < n && !BitOf(b, k)
  {
    if BitOf(b, n - 1) {
      k := ZeroBitsFind(b, n - 1);
    } else {
      k := n - 1;
    }
  }

  /** StoreStep in terms of Grown, for a pointer block. */
  lemma StoreGrown(g: Geo, sh: Shape, v: Vol, inodes: Inodes, q: Pos, n: u32)
    requires Good(g, sh, v, inodes) && IsPos(sh, q) && Reachable(v.disk, inodes, q) && !IsLeaf(q)
    requires At(v.disk, inodes, q) == 0 && Fresh(g, sh, v, inodes, n)
    ensures var v', inodes' := Store(v, inodes, q, n), StoreInodes(inodes, q, n);
      && GrownBy(g, sh, v, inodes, v', inodes', q.ino, {q}, 0, n) && SameSlots(g, sh, v, v')
      && (forall r :: IsPos(sh, r) ==> At(v'.disk, inodes', r) == if r == q then n else At(v.disk, inodes, r))
  {
    var v', inodes' := Store(v, inodes, q, n), StoreInodes(inodes, q, n);
    FreshKept(g, sh, v, inodes, q, n);
    StoreStep(g, sh, v, inodes, q, n);
    assert GrownByIs(g, sh, v, inodes, v', inodes', q.ino, {q}, 0, n, 0);
  }

  lemma FreshKept(g: Geo, sh: Shape, v: Vol, inodes: Inodes, q: Pos, n: u32)
    requires Good(g, sh, v, inodes) && IsPos(sh, q) && Reachable(v.disk, inodes, q)
    requires At(v.disk, inodes, q) == 0 && Fresh(g, sh, v, inodes, n)
    ensures forall m: nat :: Fresh(g, sh, v, inodes, m) && m != n ==>
      Fresh(g, sh, Store(v, inodes, q, n), StoreInodes(inodes, q, n), m)
  {
    Owned(g, sh, v, inodes);
    var v', inodes' := Store(v, inodes, q, n), StoreInodes(inodes, q, n);
    if q.digits != [] {
      ParentIsPos(sh, q);
      FileBlockApart(g, sh, v, inodes, At(v.disk, inodes, Parent(q)));
    }
    MarksKept(g, sh, v, v'.disk);
    BgdsKept(g, sh, v, v');
    forall m: nat | Fresh(g, sh, v, inodes, m) && m != n ensures Fresh(g, sh, v', inodes', m) {
      forall r | IsPos(sh, r) ensures At(v'.disk, inodes', r) != m {
        StoreAt(sh, v.disk, inodes, Used(g, v), q, n, r);
      }
    }
  }

  /** SlotStep in terms of Grown. */
  lemma SlotGrown(g: Geo, sh: Shape, v: Vol, inodes: Inodes, ino: u32, raw: seq<byte>)
    requires Good(g, sh, v, inodes) && ino in sh.files && |raw| == g.isize
    ensures var v' := WriteSlot(g, v, ino, raw);
      && GrownBy(g, sh, v, inodes, v', inodes, ino, {}, 0, 0) && SameTree(sh, v.disk, inodes, v'.disk, inodes)
      && TableInodes(g, sh, v') == TableInodes(g, sh, v)[ino := raw]
  {
    Owned(g, sh, v, inodes);
    SlotStep(g, sh, v, inodes, ino, raw);
    SlotPlace(g, sh, v, ino);
    var v' := WriteSlot(g, v, ino, raw);
    MarksKept(g, sh, v, v'.disk);
    BgdsKept(g, sh, v, v');
    SameTableBut(g, sh, v, v', ino, raw);
    MakeGrown(g, sh, v, inodes, v', inodes, ino, 0);
  }

  lemma SameTable(g: Geo, sh: Shape, v: Vol, v': Vol)
    requires SameSlots(g, sh, v, v')
    ensures TableInodes(g, sh, v') == TableInodes(g, sh, v)
  {
  }

  lemma SameTableBut(g: Geo, sh: Shape, v: Vol, v': Vol, ino: nat, raw: seq<byte>)
    requires ino in sh.files
    requires forall jno: nat :: jno in sh.files ==> Slot(g, v', jno) == if jno == ino then raw else Slot(g, v, jno)
    ensures TableInodes(g, sh, v') == TableInodes(g, sh, v)[ino := raw]
  {
  }

  lemma UpdateTwice(t: Inodes, ino: nat, raw: seq<byte>, raw': seq<byte>)
    ensures t[ino := raw][ino := raw'] == t[ino := raw']
  {
  }

  /** One round of growth at a root slot: allocate (v to v1), put `no` into the inode image, write the inode. */
  lemma RootRound(g: Geo, sh: Shape, v: Vol, inodes: Inodes, v1: Vol, q: Pos, no: u32, raw: seq<byte>)
    requires GrownBy(g, sh, v, inodes, v1, inodes, q.ino, {}, 1, 0) && At(v1.disk, inodes, q) == 0
    requires IsPos(sh, q) && !IsLeaf(q) && q.digits == [] && q.ino < WORD_LIMIT
    requires Fresh(g, sh, v1, inodes, no) && !Fresh(g, sh, v, inodes, no)
    requires q.ino in inodes && |inodes[q.ino]| == g.isize >= INODE_BYTES
    requires raw == SetWord(inodes[q.ino], BLOCKS_WORD + q.root, no)
    ensures Grown(g, sh, v, inodes, WriteSlot(g, v1, q.ino, raw), inodes[q.ino := raw], q.ino, {q})
    ensures At(WriteSlot(g, v1, q.ino, raw).disk, inodes[q.ino := raw], q) == no
    ensures TableInodes(g, sh, WriteSlot(g, v1, q.ino, raw)) == TableInodes(g, sh, v1)[q.ino := raw]
  {
    assert Unfold(0);
    RootHook(g, sh, v1, inodes, q, no, raw);
    var inodes2 := inodes[q.ino := raw];
    SlotGrown(g, sh, v1, inodes2, q.ino, raw);
    var v2 := WriteSlot(g, v1, q.ino, raw);
    GrownTrans(g, sh, v1, inodes, v1, inodes2, v2, inodes2, q.ino, {q}, {}, 0, 0, no, 0, no);
    GrownTrans(g, sh, v, inodes, v1, inodes, v2, inodes2, q.ino, {}, {q}, 1, 0, 0, no, 0);
    WasLacking(g, sh, v, inodes, v1, q);
    assert {q} + {} == {q} && {} + {q} == {q};
  }

  lemma WasLacking(g: Geo, sh: Shape, v: Vol, inodes: Inodes, v1: Vol, q: Pos)
    requires GrownBy(g, sh, v, inodes, v1, inodes, q.ino, {}, 1, 0) && IsPos(sh, q) && At(v1.disk, inodes, q) == 0
    ensures |Lacking(v.disk, inodes, {q})| == 1
  {
    assert Unfold(0);
    LackingOne(v.disk, inodes, q);
  }

  lemma RootHook(g: Geo, sh: Shape, v1: Vol, inodes: Inodes, q: Pos, no: u32, raw: seq<byte>)
    requires Good(g, sh, v1, inodes) && IsPos(sh, q) && !IsLeaf(q) && q.digits == [] && At(v1.disk, inodes, q) == 0
    requires Fresh(g, sh, v1, inodes, no)
    requires q.ino in inodes && |inodes[q.ino]| == g.isize >= INODE_BYTES
    requires raw == SetWord(inodes[q.ino], BLOCKS_WORD + q.root, no)
    ensures GrownBy(g, sh, v1, inodes, v1, inodes[q.ino := raw], q.ino, {q}, 0, no) && |raw| == g.isize
    ensures At(v1.disk, inodes[q.ino := raw], q) == no
  {
    assert Unfold(0);
    HookIs(v1, inodes, q, no);
    StoreGrown(g, sh, v1, inodes, q, no);
  }

  lemma HookIs(v: Vol, inodes: Inodes, q: Pos, no: u32)
    requires q.digits == [] && q.ino in inodes && 4 * (BLOCKS_WORD + q.root) + 4 <= |inodes[q.ino]|
    ensures Store(v, inodes, q, no) == v
    ensures StoreInodes(inodes, q, no) == inodes[q.ino := SetWord(inodes[q.ino], BLOCKS_WORD + q.root, no)]
    ensures StoreRaw(inodes, q, no) == SetWord(inodes[q.ino], BLOCKS_WORD + q.root, no)
  {
  }

  /** One round of growth inside pointer block `n`: allocate (v to v1), put `no` into word `LastDigit(q)`, write the
      block. */
  lemma InnerRound(g: Geo, sh: Shape, v: Vol, inodes: Inodes, v1: Vol, q: Pos, no: u32, n: u32)
    requires GrownBy(g, sh, v, inodes, v1, inodes, q.ino, {}, 1, 0) && At(v1.disk, inodes, q) == 0
    requires IsPos(sh, q) && !IsLeaf(q) && q.digits != [] && n == At(v1.disk, inodes, Parent(q)) != 0
    requires Fresh(g, sh, v1, inodes, no) && !Fresh(g, sh, v, inodes, no)
    ensures n < |v1.disk| && 4 * LastDigit(q) + 4 <= |v1.disk[n]|
    ensures var v2 := v1.(disk := v1.disk[n := SetWord(v1.disk[n], LastDigit(q), no)]);
      && Grown(g, sh, v, inodes, v2, inodes, q.ino, {q}) && At(v2.disk, inodes, q) == no
      && TableInodes(g, sh, v2) == TableInodes(g, sh, v1)
  {
    assert Unfold(0);
    InnerHook(g, sh, v1, inodes, q, no, n);
    var v2 := v1.(disk := v1.disk[n := SetWord(v1.disk[n], LastDigit(q), no)]);
    GrownTrans(g, sh, v, inodes, v1, inodes, v2, inodes, q.ino, {}, {q}, 1, 0, 0, no, 0);
    WasLacking(g, sh, v, inodes, v1, q);
    assert {} + {q} == {q};
  }

  lemma InnerHook(g: Geo, sh: Shape, v1: Vol, inodes: Inodes, q: Pos, no: u32, n: u32)
    requires Good(g, sh, v1, inodes) && IsPos(sh, q) && !IsLeaf(q) && q.digits != [] && At(v1.disk, inodes, q) == 0
    requires n == At(v1.disk, inodes, Parent(q)) != 0 && Fresh(g, sh, v1, inodes, no)
    ensures n < |v1.disk| && 4 * LastDigit(q) + 4 <= |v1.disk[n]|
    ensures var v2 := v1.(disk := v1.disk[n := SetWord(v1.disk[n], LastDigit(q), no)]);
      && GrownBy(g, sh, v1, inodes, v2, inodes, q.ino, {q}, 0, no) && At(v2.disk, inodes, q) == no
      && TableInodes(g, sh, v2) == TableInodes(g, sh, v1)
  {
    assert Unfold(0);
    ParentIsPos(sh, q);
    AtInRange(sh, v1.disk, inodes, Used(g, v1), Parent(q));
    InnerIs(v1, inodes, q, no, n);
    StoreGrown(g, sh, v1, inodes, q, no);
    SameTable(g, sh, v1, Store(v1, inodes, q, no));
  }

  lemma InnerIs(v: Vol, inodes: Inodes, q: Pos, no: u32, n: u32)
    requires q.digits != [] && n == At(v.disk, inodes, Parent(q)) < |v.disk| && 4 * LastDigit(q) + 4 <= |v.disk[n]|
    ensures Store(v, inodes, q, no) == v.(disk := v.disk[n := SetWord(v.disk[n], LastDigit(q), no)])
    ensures StoreInodes(inodes, q, no) == inodes
    ensures q.ino in inodes ==> StoreRaw(inodes, q, no) == inodes[q.ino]
  {
  }

  // ---- storing a leaf ---------------------------------------------------------------------------------------

  /** Block `d` now is at `q`, and every other block of every file is where it was. */
  ghost predicate OnlyAt(sh: Shape, v: Vol, inodes: Inodes, v': Vol, inodes': Inodes, q: Pos, d: u32) {
    forall r :: IsPos(sh, r) ==> At(v'.disk, inodes', r) == if r == q then d else At(v.disk, inodes, r)
  }

  /** Inode block `q` has become disk block `d`, the pointer blocks on the way to it exist, and everything else is where
      it was. */
  ghost predicate Placed(sh: Shape, v: Vol, inodes: Inodes, v': Vol, inodes': Inodes, q: Pos, d: u32) {
    && IsPos(sh, q) && At(v'.disk, inodes', q) == d && (forall r :: r in Above(q) ==> At(v'.disk, inodes', r) != 0)
    && (forall r :: IsPos(sh, r) && r != q && (At(v.disk, inodes, r) != 0 || r !in Above(q)) ==>
          At(v'.disk, inodes', r) == At(v.disk, inodes, r))
  }

  /** In terms of inode blocks: one of them has changed its disk block. */
  lemma PlacedLeaf(sh: Shape, v: Vol, inodes: Inodes, v': Vol, inodes': Inodes, q: Pos, d: u32, r: Pos)
    requires Placed(sh, v, inodes, v', inodes', q, d) && IsPos(sh, r) && IsLeaf(r)
    ensures At(v'.disk, inodes', r) == if r == q then d else At(v.disk, inodes, r)
  {
    WayIsPos(sh, q);
  }

  ghost predicate MappedIs(g: Geo, sh: Shape, v: Vol, inodes: Inodes, v': Vol, inodes': Inodes, q: Pos, d: u32,
                           taken: nat, k: nat) {
    && Good(g, sh, v', inodes') && |v'.disk| == |v.disk|
    && SameContent(sh, v.disk, inodes, v'.disk, inodes') && SameHeads(inodes, inodes', q.ino)
    && Placed(sh, v, inodes, v', inodes', q, d)
    && FreeCount(v'.bgds) + taken == FreeCount(v.bgds)
  }

  /** A missing inode block has been given block `d`; no file reads differently, and `taken` free blocks are gone. */
  ghost predicate Mapped(g: Geo, sh: Shape, v: Vol, inodes: Inodes, v': Vol, inodes': Inodes, q: Pos, d: u32,
                         taken: nat) {
    (if forall k: nat {:trigger Unfold(k)} {:trigger MappedIs(g, sh, v, inodes, v', inodes', q, d, taken, k)} ::
       MappedIs(g, sh, v, inodes, v', inodes', q, d, taken, k)
     then Clean else Corrupt).Clean?
  }

  /** Storing any block number at a leaf and then writing the inode. */
  lemma LeafRound(g: Geo, sh: Shape, v: Vol, inodes: Inodes, q: Pos, d: u32)
    requires Good(g, sh, v, inodes) && IsPos(sh, q) && IsLeaf(q) && Reachable(v.disk, inodes, q)
    requires q.ino < WORD_LIMIT && q.ino in inodes && |inodes[q.ino]| == g.isize
    requires inodes == TableInodes(g, sh, v)[q.ino := inodes[q.ino]]
    ensures var v1, inodes1 := Store(v, inodes, q, d), StoreInodes(inodes, q, d);
      && q.ino in inodes1 && |inodes1[q.ino]| == g.isize && Layout(g, sh, |v1.disk|, v1.bgds)
      && OnlyAt(sh, v, inodes, WriteSlot(g, v1, q.ino, inodes1[q.ino]), inodes1, q, d)
      && TableInodes(g, sh, WriteSlot(g, v1, q.ino, inodes1[q.ino])) == inodes1
  {
    Owned(g, sh, v, inodes);
    var v1, inodes1 := Store(v, inodes, q, d), StoreInodes(inodes, q, d);
    var v2 := WriteSlot(g, v1, q.ino, inodes1[q.ino]);
    LeafStore(g, sh, v, inodes, q, d);
    StoreShape(v, inodes, q, d);
    LeafSlot(g, sh, v, inodes, q, d, v1, inodes1);
    LeafTable(g, sh, v, v1, inodes, inodes1, q.ino);
  }

  lemma LeafStore(g: Geo, sh: Shape, v: Vol, inodes: Inodes, q: Pos, d: u32)
    requires Good(g, sh, v, inodes) && IsPos(sh, q) && IsLeaf(q) && Reachable(v.disk, inodes, q)
    requires q.ino in inodes && |inodes[q.ino]| == g.isize
    ensures var v1, inodes1 := Store(v, inodes, q, d), StoreInodes(inodes, q, d);
      && (forall r :: IsPos(sh, r) ==> At(v1.disk, inodes1, r) == if r == q then d else At(v.disk, inodes, r))
      && SameSlots(g, sh, v, v1)
  {
    Owned(g, sh, v, inodes);
    var v1, inodes1 := Store(v, inodes, q, d), StoreInodes(inodes, q, d);
    forall r | IsPos(sh, r) ensures At(v1.disk, inodes1, r) == if r == q then d else At(v.disk, inodes, r) {
      StoreAt(sh, v.disk, inodes, Used(g, v), q, d, r);
    }
    if q.digits != [] {
      ParentIsPos(sh, q);
      FileBlockApart(g, sh, v, inodes, At(v.disk, inodes, Parent(q)));
    }
    SlotsKept(g, sh, v, v1);
  }

  lemma StoreShape(v: Vol, inodes: Inodes, q: Pos, d: u32)
    requires q.ino in inodes
    ensures var v1, inodes1 := Store(v, inodes, q, d), StoreInodes(inodes, q, d);
      && v1.bgds == v.bgds && |v1.disk| == |v.disk| && (forall n :: 0 <= n < |v.disk| ==> |v1.disk[n]| == |v.disk[n]|)
      && inodes1.Keys == inodes.Keys && |inodes1[q.ino]| == |inodes[q.ino]|
      && (forall jno: nat :: jno != q.ino && jno in inodes ==> inodes1[jno] == inodes[jno])
  {
  }

  lemma LeafSlot(g: Geo, sh: Shape, v: Vol, inodes: Inodes, q: Pos, d: u32, v1: Vol, inodes1: Inodes)
    requires Good(g, sh, v, inodes) && IsPos(sh, q) && IsLeaf(q) && q.ino < WORD_LIMIT
    requires v1.bgds == v.bgds && |v1.disk| == |v.disk| && q.ino in inodes1
    requires forall r :: IsPos(sh, r) ==> At(v1.disk, inodes1, r) == if r == q then d else At(v.disk, inodes, r)
    ensures OnlyAt(sh, v, inodes, WriteSlot(g, v1, q.ino, inodes1[q.ino]), inodes1, q, d)
  {
    Owned(g, sh, v, inodes);
    SlotPlace(g, sh, v, q.ino);
    var v2 := WriteSlot(g, v1, q.ino, inodes1[q.ino]);
    var n := SlotBlock(g, v.bgds, q.ino);
    forall m | 0 <= m < |v1.disk| && IsPointerBlock(sh, v1.disk, inodes1, m) ensures v2.disk[m] == v1.disk[m] {
      assert m != n;
    }
    forall r | IsPos(sh, r) ensures At(v2.disk, inodes1, r) == At(v1.disk, inodes1, r) {
      TreeFrame(sh, v1.disk, inodes1, v2.disk, r);
    }
  }

  lemma LeafTable(g: Geo, sh: Shape, v: Vol, v1: Vol, inodes: Inodes, inodes1: Inodes, ino: u32)
    requires Layout(g, sh, |v.disk|, v.bgds) && SameSlots(g, sh, v, v1) && v1.bgds == v.bgds && |v1.disk| == |v.disk|
    requires ino in sh.files && ino in inodes1 && |inodes1[ino]| == g.isize
    requires forall n :: 0 <= n < |v.disk| ==> |v1.disk[n]| == g.bs
    requires ino in inodes && inodes == TableInodes(g, sh, v)[ino := inodes[ino]]
    requires inodes1.Keys == inodes.Keys && forall jno: nat :: jno != ino && jno in inodes ==>
      inodes1[jno] == inodes[jno]
    ensures TableInodes(g, sh, WriteSlot(g, v1, ino, inodes1[ino])) == inodes1
  {
    SameTable(g, sh, v, v1);
    var v2 := WriteSlot(g, v1, ino, inodes1[ino]);
    forall jno: nat | jno in sh.files ensures Slot(g, v2, jno) == if jno == ino then inodes1[ino]
      else Slot(g, v1, jno) {
      SlotReadBack(g, sh, v1, ino, inodes1[ino], jno);
    }
    SameTableBut(g, sh, v1, v2, ino, inodes1[ino]);
    UpdateOther(TableInodes(g, sh, v), inodes, inodes1, ino);
  }

  lemma UpdateSame(t: Inodes, ino: nat)
    requires ino in t
    ensures t[ino := t[ino]] == t
  {
  }

  lemma UpdateOther(t: Inodes, inodes: Inodes, inodes1: Inodes, ino: nat)
    requires ino in inodes && inodes == t[ino := inodes[ino]] && inodes1.Keys == inodes.Keys
    requires forall jno: nat :: jno != ino && jno in inodes ==> inodes1[jno] == inodes[jno]
    ensures t[ino := inodes1[ino]] == inodes1
  {
  }

  /** If the block was fresh and the leaf missing, the volume stays sound and every file reads the same. */
  lemma LeafGood(g: Geo, sh: Shape, v: Vol, inodes: Inodes, q: Pos, d: u32)
    requires Good(g, sh, v, inodes) && IsPos(sh, q) && IsLeaf(q) && Reachable(v.disk, inodes, q)
    requires At(v.disk, inodes, q) == 0 && Fresh(g, sh, v, inodes, d)
    requires q.ino < WORD_LIMIT && q.ino in inodes && |inodes[q.ino]| == g.isize
    ensures var v1, inodes1 := Store(v, inodes, q, d), StoreInodes(inodes, q, d);
      && q.ino in inodes1
      && Mapped(g, sh, v, inodes, WriteSlot(g, v1, q.ino, inodes1[q.ino]), inodes1, q, d, 0)
  {
    assert Unfold(0);
    var v1, inodes1 := Store(v, inodes, q, d), StoreInodes(inodes, q, d);
    StoreStep(g, sh, v, inodes, q, d);
    SlotGrown(g, sh, v1, inodes1, q.ino, inodes1[q.ino]);
    var v2 := WriteSlot(g, v1, q.ino, inodes1[q.ino]);
    assert SameHeads(inodes, inodes1, q.ino);
    StoredPlace(g, sh, v, inodes, v2, inodes1, q, d);
    assert MappedIs(g, sh, v, inodes, v2, inodes1, q, d, 0, 0);
  }

  /** Above an existing block there are blocks all the way. */
  lemma {:induction false} WayPresent(sh: Shape, disk: Disk, inodes: Inodes, used: set<nat>, q: Pos)
    requires Inv(sh, disk, inodes, used) && IsPos(sh, q) && At(disk, inodes, q) != 0
    ensures forall r :: r in Way(q) ==> At(disk, inodes, r) != 0
    decreases |q.digits|
  {
    if q.digits != [] {
      ParentIsPos(sh, q);
      ZeroCell(disk, 0, LastDigit(q));
      WayPresent(sh, disk, inodes, used, Parent(q));
    }
  }

  lemma StoredPlace(g: Geo, sh: Shape, v: Vol, i: Inodes, v': Vol, i': Inodes, q: Pos, d: u32)
    requires Good(g, sh, v, i) && IsPos(sh, q) && Reachable(v.disk, i, q) && OnlyAt(sh, v, i, v', i', q, d)
    ensures Placed(sh, v, i, v', i', q, d)
  {
    WayIsPos(sh, q);
    if q.digits != [] {
      Owned(g, sh, v, i);
      ParentIsPos(sh, q);
      WayPresent(sh, v.disk, i, Used(g, v), Parent(q));
    }
  }

  lemma GrownPlaced(g: Geo, sh: Shape, v: Vol, i: Inodes, v1: Vol, i1: Inodes, v2: Vol, i2: Inodes, q: Pos, d: u32,
                    ps: set<Pos>, taken: nat)
    requires GrownBy(g, sh, v, i, v1, i1, q.ino, ps, taken, 0) && Placed(sh, v1, i1, v2, i2, q, d) && ps <= Above(q)
    ensures Placed(sh, v, i, v2, i2, q, d)
  {
    assert Unfold(0);
    WayIsPos(sh, q);
  }

  lemma GrownMapped(g: Geo, sh: Shape, v: Vol, i: Inodes, v1: Vol, i1: Inodes, v2: Vol, i2: Inodes, q: Pos, d: u32,
                    ps: set<Pos>, t1: nat, t2: nat)
    requires GrownBy(g, sh, v, i, v1, i1, q.ino, ps, t1, 0) && ps <= Above(q) && Mapped(g, sh, v1, i1, v2, i2, q, d, t2)
    ensures Mapped(g, sh, v, i, v2, i2, q, d, t1 + t2)
  {
    assert Unfold(0);
    forall jno | jno in i ensures SameHead(i[jno], i2[jno]) {
      assert SameHead(i[jno], i1[jno]) && SameHead(i1[jno], i2[jno]);
    }
    GrownPlaced(g, sh, v, i, v1, i1, v2, i2, q, d, ps, t1);
    assert MappedIs(g, sh, v, i, v2, i2, q, d, t1 + t2, 0);
  }

  ghost predicate PointerSetIs(g: Geo, sh: Shape, v: Vol, i: Inodes, v': Vol, i': Inodes, q: Pos, d: u32, k: nat) {
    && Placed(sh, v, i, v', i', q, d) && |v'.disk| == |v.disk|
    && FreeCount(v'.bgds) + |Lacking(v.disk, i, Above(q))| == FreeCount(v.bgds)
    && (Fresh(g, sh, v, i, d) && At(v.disk, i, q) == 0 ==>
          Mapped(g, sh, v, i, v', i', q, d, |Lacking(v.disk, i, Above(q))|))
  }

  /** Inode block `q` now is disk block `d`, and nothing else has moved; if `d` was fresh and `q` missing, the
      volume is sound and every file reads as before. */
  ghost predicate PointerSet(g: Geo, sh: Shape, v: Vol, i: Inodes, v': Vol, i': Inodes, q: Pos, d: u32) {
    (if forall k: nat {:trigger Unfold(k)} {:trigger PointerSetIs(g, sh, v, i, v', i', q, d, k)} ::
       PointerSetIs(g, sh, v, i, v', i', q, d, k)
     then Clean else Corrupt).Clean?
  }

  lemma PointerSetMeans(g: Geo, sh: Shape, v: Vol, i: Inodes, v': Vol, i': Inodes, q: Pos, d: u32)
    requires PointerSet(g, sh, v, i, v', i', q, d)
    ensures PointerSetIs(g, sh, v, i, v', i', q, d, 0)
  {
    assert Unfold(0);
  }

  /** set_disk_block_number as a whole: pointer blocks have grown (v to v3), then the leaf is stored and the inode
      written. */
  lemma SetRound(g: Geo, sh: Shape, v: Vol, i: Inodes, v3: Vol, i3: Inodes, v4: Vol, raw: seq<byte>, q: Pos, d: u32)
    requires Grown(g, sh, v, i, v3, i3, q.ino, Above(q)) && IsLeaf(q) && StoredTo(g, sh, v3, i3, v4, raw, q, d)
    ensures var v5 := WriteSlot(g, v4, q.ino, raw);
      && PointerSet(g, sh, v, i, v5, TableInodes(g, sh, v5), q, d) && Layout(g, sh, |v4.disk|, v4.bgds)
      && TableInodes(g, sh, v5) == TableInodes(g, sh, v5)[q.ino := raw] && |raw| == g.isize
  {
    assert Unfold(0);
    assert StoredIs(g, sh, v3, i3, v4, raw, q, d, 0);
    var i4 := StoreInodes(i3, q, d);
    LeafRound(g, sh, v3, i3, q, d);
    var v5 := WriteSlot(g, v4, q.ino, i4[q.ino]);
    UpdateSame(i4, q.ino);
    StoredPlace(g, sh, v3, i3, v5, i4, q, d);
    LeafSetDone(g, sh, v, i, v3, i3, v5, i4, q, d);
  }

  lemma LeafSetDone(g: Geo, sh: Shape, v: Vol, i: Inodes, v3: Vol, i3: Inodes, v5: Vol, i4: Inodes, q: Pos, d: u32)
    requires Grown(g, sh, v, i, v3, i3, q.ino, Above(q)) && IsLeaf(q) && Placed(sh, v3, i3, v5, i4, q, d)
    requires q.ino < WORD_LIMIT && q.ino in i3 && |i3[q.ino]| == g.isize && Reachable(v3.disk, i3, q)
    requires i4 == StoreInodes(i3, q, d) && q.ino in i4 && v5 == WriteSlot(g, Store(v3, i3, q, d), q.ino, i4[q.ino])
    ensures PointerSet(g, sh, v, i, v5, i4, q, d)
  {
    assert Unfold(0);
    var taken := |Lacking(v.disk, i, Above(q))|;
    GrownPlaced(g, sh, v, i, v3, i3, v5, i4, q, d, Above(q), taken);
    if Fresh(g, sh, v, i, d) && At(v.disk, i, q) == 0 {
      WayIsPos(sh, q);
      LeafGood(g, sh, v3, i3, q, d);
      GrownMapped(g, sh, v, i, v3, i3, v5, i4, q, d, Above(q), taken, 0);
    }
    assert PointerSetIs(g, sh, v, i, v5, i4, q, d, 0);
  }

  // ---- allocating an inode block ---------------------------------------------------------------------------

  /** No pointer block lies in the volume's own areas. */
  ghost predicate PointersApart(sh: Shape, disk: Disk, inodes: Inodes) {
    forall r :: IsPos(sh, r) && !IsLeaf(r) ==> At(disk, inodes, r) == 0 || At(disk, inodes, r) !in sh.meta
  }

  lemma LackingWay(sh: Shape, disk: Disk, inodes: Inodes, q: Pos)
    requires IsPos(sh, q) && At(disk, inodes, q) == 0
    ensures |Lacking(disk, inodes, Way(q))| == |Lacking(disk, inodes, Above(q))| + 1
  {
    WayIsPos(sh, q);
    assert Lacking(disk, inodes, Way(q)) == Lacking(disk, inodes, Above(q)) + {q};
  }

  lemma LackingSame(sh: Shape, disk: Disk, disk': Disk, inodes: Inodes, q: Pos)
    requires IsPos(sh, q) && SameTree(sh, disk, inodes, disk', inodes)
    ensures Lacking(disk', inodes, Above(q)) == Lacking(disk, inodes, Above(q))
  {
    WayIsPos(sh, q);
  }

  /** The room that is left when the data block has been asked for. */
  lemma WayRoom(g: Geo, sh: Shape, v: Vol, i: Inodes, v1: Vol, q: Pos, no: u32)
    requires Good(g, sh, v, i) && IsPos(sh, q) && At(v.disk, i, q) == 0
    requires Served(g, sh, v, i, v1, no, q.ino)
    ensures |Lacking(v.disk, i, Way(q))| == |Lacking(v.disk, i, Above(q))| + 1
    ensures Lacking(v1.disk, i, Above(q)) == Lacking(v.disk, i, Above(q))
    ensures FreeCount(v.bgds) > 0 ==> (RoomAbove(v1, i, q) <==> RoomWay(v, i, q))
    ensures FreeCount(v.bgds) == 0 ==>
      !RoomWay(v, i, q) && (RoomAbove(v, i, q) <==> |Lacking(v.disk, i, Above(q))| == 0) && v1 == v
  {
    assert Unfold(0);
    assert ServedIs(g, sh, v, i, v1, no, q.ino, 0);
    LackingWay(sh, v.disk, i, q);
    LackingSame(sh, v.disk, v1.disk, i, q);
  }

  lemma AllocMapped(g: Geo, sh: Shape, v: Vol, i: Inodes, v1: Vol, v2: Vol, i2: Inodes, q: Pos, no: u32)
    requires Good(g, sh, v, i) && IsPos(sh, q) && At(v.disk, i, q) == 0 && Served(g, sh, v, i, v1, no, q.ino)
             && no != MINUS_ONE
    requires PointerSetIs(g, sh, v1, i, v2, i2, q, no, 0)
    ensures Mapped(g, sh, v, i, v2, i2, q, no, |Lacking(v.disk, i, Way(q))|) && PointersApart(sh, v2.disk, i2)
    ensures no != 0 && Good(g, sh, v2, i2)
  {
    assert Unfold(0);
    SomeFreeLeft(g, sh, v, i, v1, q, no);
    GrownMapped(g, sh, v, i, v1, i, v2, i2, q, no, {}, 1, |Lacking(v1.disk, i, Above(q))|);
    forall r | IsPos(sh, r) && At(v2.disk, i2, r) != 0 ensures At(v2.disk, i2, r) !in sh.meta {
      NotMeta(g, sh, v2, i2, r);
    }
  }

  lemma SomeFreeLeft(g: Geo, sh: Shape, v: Vol, i: Inodes, v1: Vol, q: Pos, no: u32)
    requires Good(g, sh, v, i) && IsPos(sh, q) && At(v.disk, i, q) == 0 && Served(g, sh, v, i, v1, no, q.ino)
             && no != MINUS_ONE
    ensures AllocatedTo(g, sh, v, i, v1, no, q.ino)
    ensures FreeCount(v.bgds) > 0 && |Lacking(v.disk, i, Way(q))| == 1 + |Lacking(v1.disk, i, Above(q))|
    ensures Fresh(g, sh, v1, i, no) && At(v1.disk, i, q) == 0
  {
    assert Unfold(0);
    WayRoom(g, sh, v, i, v1, q, no);
  }

  /** With all pointer blocks there but no free block, -1 becomes the inode block. */
  lemma AllocFailed(g: Geo, sh: Shape, v: Vol, i: Inodes, v2: Vol, i2: Inodes, q: Pos)
    requires Good(g, sh, v, i) && |v2.disk| == |v.disk| && Placed(sh, v, i, v2, i2, q, MINUS_ONE) && IsLeaf(q)
    requires |Lacking(v.disk, i, Above(q))| == 0
    ensures PointersApart(sh, v2.disk, i2) && forall r :: r in Above(q) ==> At(v2.disk, i2, r) < |v2.disk|
  {
    assert Unfold(0);
    WayIsPos(sh, q);
    forall r | IsPos(sh, r) && r != q
      ensures At(v2.disk, i2, r) == At(v.disk, i, r) < |v.disk|
              && (At(v.disk, i, r) == 0 || At(v.disk, i, r) !in sh.meta)
    {
      InRange(g, sh, v, i, r);
      if At(v.disk, i, r) != 0 {
        NotMeta(g, sh, v, i, r);
      } else {
        assert r !in Lacking(v.disk, i, Above(q));
      }
    }
  }

  ghost predicate AllocedIs(g: Geo, sh: Shape, v: Vol, i: Inodes, v': Vol, i': Inodes, q: Pos, d: u32, k: nat) {
    && |v'.disk| == |v.disk|
    && (if RoomWay(v, i, q) then d != 0 && Mapped(g, sh, v, i, v', i', q, d, |Lacking(v.disk, i, Way(q))|)
        else At(v'.disk, i', q) == MINUS_ONE && forall r :: r in Above(q) ==> At(v'.disk, i', r) < |v'.disk|)
  }

  /** What alloc_inode_block makes of a missing inode block if it comes to its end: with room it gets block `d`, without
      room it becomes block -1. */
  ghost predicate Alloced(g: Geo, sh: Shape, v: Vol, i: Inodes, v': Vol, i': Inodes, q: Pos, d: u32) {
    (if forall k: nat :: AllocedIs(g, sh, v, i, v', i', q, d, k) then Clean else Corrupt).Clean?
  }

  lemma AllocOutcome(g: Geo, sh: Shape, v: Vol, i: Inodes, v1: Vol, v2: Vol, i2: Inodes, q: Pos, no: u32)
    requires Good(g, sh, v, i) && IsPos(sh, q) && IsLeaf(q) && At(v.disk, i, q) == 0
             && Served(g, sh, v, i, v1, no, q.ino)
    requires PointerSet(g, sh, v1, i, v2, i2, q, no) && RoomAbove(v1, i, q)
    ensures Alloced(g, sh, v, i, v2, i2, q, no) && PointersApart(sh, v2.disk, i2)
    ensures RoomWay(v, i, q) || FreeCount(v.bgds) == 0
  {
    WayRoom(g, sh, v, i, v1, q, no);
    PointerSetMeans(g, sh, v1, i, v2, i2, q, no);
    ServedMeans(g, sh, v, i, v1, no, q.ino);
    if no != MINUS_ONE {
      GrownGood(g, sh, v, i, v1, i, q.ino, {}, 1, 0);
      AllocMapped(g, sh, v, i, v1, v2, i2, q, no);
    } else {
      AllocFailed(g, sh, v, i, v2, i2, q);
    }
    assert AllocedIs(g, sh, v, i, v2, i2, q, no, 0);
  }

  lemma AllocedMeans(g: Geo, sh: Shape, v: Vol, i: Inodes, v': Vol, i': Inodes, q: Pos, d: u32)
    requires Alloced(g, sh, v, i, v', i', q, d)
    ensures AllocedIs(g, sh, v, i, v', i', q, d, 0)
    ensures RoomWay(v, i, q) ==> Good(g, sh, v', i')
  {
    assert AllocedIs(g, sh, v, i, v', i', q, d, 0);
    if RoomWay(v, i, q) {
      assert MappedIs(g, sh, v, i, v', i', q, d, |Lacking(v.disk, i, Way(q))|, 0);
    }
  }

  /** A full disk: the -1 of ext2_alloc_block takes the place of the inode block, and the volume is lost. */
  lemma FullDisk(g: Geo, sh: Shape, v: Vol, i: Inodes, v': Vol, i': Inodes, q: Pos, d: u32)
    requires Alloced(g, sh, v, i, v', i', q, d) && IsPos(sh, q) && At(v.disk, i, q) == 0 && FreeCount(v.bgds) == 0
    ensures At(v'.disk, i', q) == MINUS_ONE && !Good(g, sh, v', i')
  {
    AllocedMeans(g, sh, v, i, v', i', q, d);
    LackingWay(sh, v.disk, i, q);
    assert !RoomWay(v, i, q);
    Ruined(g, sh, v', i', q);
  }

  /** num_sectors changes nothing about that. */
  lemma AllocedTouch(g: Geo, sh: Shape, v: Vol, i: Inodes, v2: Vol, i2: Inodes, q: Pos, d: u32, w: u32)
    requires Alloced(g, sh, v, i, v2, i2, q, d) && IsPos(sh, q) && PointersApart(sh, v2.disk, i2)
    requires Layout(g, sh, |v2.disk|, v2.bgds) && q.ino < WORD_LIMIT && q.ino in i && q.ino in i2
    requires |i2[q.ino]| == g.isize && g.isize >= INODE_BYTES
    requires forall n :: 0 <= n < |v2.disk| ==> |v2.disk[n]| == g.bs
    ensures var raw := SetWord(i2[q.ino], SECTORS_WORD, w);
      var v3 := WriteSlot(g, v2, q.ino, raw);
      && Alloced(g, sh, v, i, v3, i2[q.ino := raw], q, d)
      && TableInodes(g, sh, v3) == TableInodes(g, sh, v2)[q.ino := raw]
  {
    AllocedMeans(g, sh, v, i, v2, i2, q, d);
    var raw := SetWord(i2[q.ino], SECTORS_WORD, w);
    var v3, i3 := WriteSlot(g, v2, q.ino, raw), i2[q.ino := raw];
    TouchTree(g, sh, v2, i2, q.ino, w);
    WayIsPos(sh, q);
    if RoomWay(v, i, q) {
      MappedTouch(g, sh, v, i, v2, i2, q, d, |Lacking(v.disk, i, Way(q))|, w);
    }
    assert AllocedIs(g, sh, v, i, v3, i3, q, d, 0);
  }

  /** Writing num_sectors to disk leaves every tree in place, whatever its leaves are. */
  lemma TouchTree(g: Geo, sh: Shape, v: Vol, i: Inodes, ino: u32, w: u32)
    requires Layout(g, sh, |v.disk|, v.bgds) && PointersApart(sh, v.disk, i) && ino in sh.files
    requires forall n :: 0 <= n < |v.disk| ==> |v.disk[n]| == g.bs
    requires ino as nat in i && |i[ino as nat]| == g.isize && g.isize >= INODE_BYTES
    ensures var raw := SetWord(i[ino as nat], SECTORS_WORD, w);
      && SameTree(sh, v.disk, i, WriteSlot(g, v, ino, raw).disk, i[ino as nat := raw])
      && TableInodes(g, sh, WriteSlot(g, v, ino, raw)) == TableInodes(g, sh, v)[ino as nat := raw]
  {
    var raw := SetWord(i[ino as nat], SECTORS_WORD, w);
    var v2, i2 := WriteSlot(g, v, ino, raw), i[ino as nat := raw];
    SlotPlace(g, sh, v, ino);
    forall m | 0 <= m < |v.disk| && IsPointerBlock(sh, v.disk, i, m) ensures v2.disk[m] == v.disk[m] {
      assert m != SlotBlock(g, v.bgds, ino);
    }
    forall q | IsPos(sh, q) ensures At(v2.disk, i2, q) == At(v.disk, i, q) {
      TreeFrame(sh, v.disk, i, v2.disk, q);
      TouchAt(sh, v2.disk, i, i2, q);
    }
    forall jno: nat | jno in sh.files ensures Slot(g, v2, jno) == if jno == ino then raw else Slot(g, v, jno) {
      SlotReadBack(g, sh, v, ino, raw, jno);
    }
    SameTableBut(g, sh, v, v2, ino, raw);
  }

  // ---- a disk without free blocks -------------------------------------------------------------------------

  /** A pointer to block -1 is no pointer of a sound volume. */
  lemma Ruined(g: Geo, sh: Shape, v: Vol, inodes: Inodes, q: Pos)
    requires IsPos(sh, q) && At(v.disk, inodes, q) == MINUS_ONE
    ensures !Good(g, sh, v, inodes)
  {
    if Good(g, sh, v, inodes) {
      InRange(g, sh, v, inodes, q);
      MulMono(1, g.bs, |v.disk|);
    }
  }

  /** The -1 of ext2_alloc_block in inode->blocks. */
  lemma RuinedRoot(g: Geo, sh: Shape, v: Vol, inodes: Inodes, q: Pos, raw: seq<byte>)
    requires Good(g, sh, v, inodes) && IsPos(sh, q) && q.digits == [] && q.ino < WORD_LIMIT
    requires q.ino in inodes && |inodes[q.ino]| == g.isize && g.isize >= INODE_BYTES
    requires raw == SetWord(inodes[q.ino], BLOCKS_WORD + q.root, MINUS_ONE)
    ensures var v2 := WriteSlot(g, v, q.ino, raw);
      && At(v2.disk, inodes[q.ino := raw], q) == MINUS_ONE && |raw| == g.isize
      && TableInodes(g, sh, v2) == TableInodes(g, sh, v)[q.ino := raw]
  {
    Owned(g, sh, v, inodes);
    var v2 := WriteSlot(g, v, q.ino, raw);
    forall jno: nat | jno in sh.files ensures Slot(g, v2, jno) == if jno == q.ino then raw else Slot(g, v, jno) {
      SlotReadBack(g, sh, v, q.ino, raw, jno);
    }
    SameTableBut(g, sh, v, v2, q.ino, raw);
  }

  /** The -1 of ext2_alloc_block in a pointer block. */
  lemma RuinedInner(g: Geo, sh: Shape, v: Vol, inodes: Inodes, q: Pos, n: u32)
    requires Good(g, sh, v, inodes) && IsPos(sh, q) && q.digits != [] && n == At(v.disk, inodes, Parent(q)) != 0
    ensures n < |v.disk| && 4 * LastDigit(q) + 4 <= |v.disk[n]|
    ensures var v2 := v.(disk := v.disk[n := SetWord(v.disk[n], LastDigit(q), MINUS_ONE)]);
      At(v2.disk, inodes, q) == MINUS_ONE && TableInodes(g, sh, v2) == TableInodes(g, sh, v)
  {
    Owned(g, sh, v, inodes);
    ParentIsPos(sh, q);
    AtInRange(sh, v.disk, inodes, Used(g, v), Parent(q));
    InnerIs(v, inodes, q, MINUS_ONE, n);
    StoreShallow(sh, v.disk, inodes, Used(g, v), q, MINUS_ONE, q);
    FileBlockApart(g, sh, v, inodes, n);
    SlotsKept(g, sh, v, Store(v, inodes, q, MINUS_ONE));
    SameTable(g, sh, v, Store(v, inodes, q, MINUS_ONE));
  }

  ghost predicate StoredIs(g: Geo, sh: Shape, v3: Vol, i3: Inodes, v4: Vol, raw: seq<byte>, q: Pos, d: u32, k: nat) {
    && q.ino < WORD_LIMIT && IsPos(sh, q) && q.ino in i3 && |i3[q.ino]| == g.isize
    && i3 == TableInodes(g, sh, v3)[q.ino := i3[q.ino]]
    && Reachable(v3.disk, i3, q) && v4 == Store(v3, i3, q, d) && raw == StoreRaw(i3, q, d)
  }

  /** Storing `d` at `q` in (v3, i3) gives the volume `v4` and the image `raw` of the inode. */
  ghost predicate StoredTo(g: Geo, sh: Shape, v3: Vol, i3: Inodes, v4: Vol, raw: seq<byte>, q: Pos, d: u32) {
    (if forall k: nat {:trigger Unfold(k)} {:trigger StoredIs(g, sh, v3, i3, v4, raw, q, d, k)} ::
       StoredIs(g, sh, v3, i3, v4, raw, q, d, k)
     then Clean else Corrupt).Clean?
  }

  /** What alloc_inode_metadata_block makes of the pointer block at `q`: if it is missing and there is a free block, it
      gets that; if it is missing and there is none, it becomes block -1. */
  ghost predicate ObtainedIs(g: Geo, sh: Shape, v: Vol, i: Inodes, v': Vol, i': Inodes, q: Pos, k: nat) {
    if Room(v, i, {q}) then At(v'.disk, i', q) != 0 && Grown(g, sh, v, i, v', i', q.ino, {q})
    else At(v'.disk, i', q) == MINUS_ONE && !Good(g, sh, v', i')
  }

  ghost predicate Obtained(g: Geo, sh: Shape, v: Vol, i: Inodes, v': Vol, i': Inodes, q: Pos) {
    (if forall k: nat {:trigger Unfold(k)} {:trigger ObtainedIs(g, sh, v, i, v', i', q, k)} ::
       ObtainedIs(g, sh, v, i, v', i', q, k)
     then Clean else Corrupt).Clean?
  }

  lemma ObtainedMeans(g: Geo, sh: Shape, v: Vol, i: Inodes, v': Vol, i': Inodes, q: Pos)
    requires Obtained(g, sh, v, i, v', i', q) && IsPos(sh, q)
    ensures Room(v, i, {q}) ==> Grown(g, sh, v, i, v', i', q.ino, {q}) && Good(g, sh, v', i')
    ensures Room(v, i, {q}) ==> 0 < At(v'.disk, i', q) < |v'.disk| && At(v'.disk, i', q) !in sh.meta
    ensures !Room(v, i, {q}) ==> At(v'.disk, i', q) == MINUS_ONE && !Good(g, sh, v', i')
  {
    assert Unfold(0);
    if Room(v, i, {q}) {
      NotMeta(g, sh, v', i', q);
    }
  }

  ghost predicate ServedIs(g: Geo, sh: Shape, v: Vol, inodes: Inodes, v1: Vol, no: u32, ino: nat, k: nat) {
    if FreeCount(v.bgds) == 0 then no == MINUS_ONE && v1 == v
    else
      && AllocatedTo(g, sh, v, inodes, v1, no, ino) && g.bpg > 0 && LeastFree(g, v, no) && !Fresh(g, sh, v, inodes, no)
      && no != MINUS_ONE
  }

  /** What ext2_alloc_block does: it hands out the least free block, or -1 if there is none. */
  ghost predicate Served(g: Geo, sh: Shape, v: Vol, inodes: Inodes, v1: Vol, no: u32, ino: nat) {
    (if forall k: nat {:trigger Unfold(k)} {:trigger ServedIs(g, sh, v, inodes, v1, no, ino, k)} ::
       ServedIs(g, sh, v, inodes, v1, no, ino, k)
     then Clean else Corrupt).Clean?
  }

  lemma ServedMeans(g: Geo, sh: Shape, v: Vol, inodes: Inodes, v1: Vol, no: u32, ino: nat)
    requires Served(g, sh, v, inodes, v1, no, ino)
    ensures ServedIs(g, sh, v, inodes, v1, no, ino, 0)
  {
    assert ServedIs(g, sh, v, inodes, v1, no, ino, 0);
  }

  /** alloc_inode_metadata_block on a missing root pointer. */
  lemma RootFilled(g: Geo, sh: Shape, v: Vol, inodes: Inodes, v1: Vol, q: Pos, no: u32, raw: seq<byte>)
    requires Good(g, sh, v, inodes) && Good(g, sh, v1, inodes) && At(v.disk, inodes, q) == 0 && q.ino < WORD_LIMIT
    requires IsPos(sh, q) && !IsLeaf(q) && q.digits == [] && Served(g, sh, v, inodes, v1, no, q.ino)
    requires q.ino in inodes && |inodes[q.ino]| == g.isize && g.isize >= INODE_BYTES
    requires raw == SetWord(inodes[q.ino], BLOCKS_WORD + q.root, no)
    ensures var v2 := WriteSlot(g, v1, q.ino, raw);
      && Obtained(g, sh, v, inodes, v2, inodes[q.ino := raw], q) && |raw| == g.isize
      && TableInodes(g, sh, v2) == TableInodes(g, sh, v1)[q.ino := raw]
  {
    assert Unfold(0);
    assert ServedIs(g, sh, v, inodes, v1, no, q.ino, 0);
    LackingOne(v.disk, inodes, q);
    var v2 := WriteSlot(g, v1, q.ino, raw);
    if no != MINUS_ONE {
      RootRound(g, sh, v, inodes, v1, q, no, raw);
    } else {
      RuinedRoot(g, sh, v, inodes, q, raw);
      Ruined(g, sh, v2, inodes[q.ino := raw], q);
    }
    assert ObtainedIs(g, sh, v, inodes, v2, inodes[q.ino := raw], q, 0);
  }

  /** alloc_inode_metadata_block on a missing pointer in pointer block `n`. */
  lemma InnerFilled(g: Geo, sh: Shape, v: Vol, inodes: Inodes, v1: Vol, q: Pos, no: u32, n: u32)
    requires Good(g, sh, v, inodes) && Good(g, sh, v1, inodes) && At(v.disk, inodes, q) == 0
    requires IsPos(sh, q) && !IsLeaf(q) && q.digits != [] && Served(g, sh, v, inodes, v1, no, q.ino)
    requires n == At(v.disk, inodes, Parent(q)) != 0
    ensures n < |v.disk| == |v1.disk| && v1.disk[n] == v.disk[n] && 4 * LastDigit(q) + 4 <= |v1.disk[n]|
    ensures var v2 := v1.(disk := v1.disk[n := SetWord(v1.disk[n], LastDigit(q), no)]);
      && Obtained(g, sh, v, inodes, v2, inodes, q) && At(v2.disk, inodes, q) == no
      && TableInodes(g, sh, v2) == TableInodes(g, sh, v1)
  {
    assert Unfold(0);
    assert ServedIs(g, sh, v, inodes, v1, no, q.ino, 0);
    LackingOne(v.disk, inodes, q);
    ParentIsPos(sh, q);
    NotMeta(g, sh, v, inodes, Parent(q));
    if no != MINUS_ONE {
      InnerRound(g, sh, v, inodes, v1, q, no, n);
    } else {
      RuinedInner(g, sh, v, inodes, q, n);
      Ruined(g, sh, v.(disk := v.disk[n := SetWord(v.disk[n], LastDigit(q), no)]), inodes, q);
    }
    var v2 := v1.(disk := v1.disk[n := SetWord(v1.disk[n], LastDigit(q), no)]);
    assert ObtainedIs(g, sh, v, inodes, v2, inodes, q, 0);
  }

  // ---- changing a field of the inode ------------------------------------------------------------------------

  /** Writing a field in front of blocks[] leaves the tree of every file in place. */
  lemma TouchInode(g: Geo, sh: Shape, v: Vol, inodes: Inodes, ino: nat, k: nat, w: u32)
    requires Good(g, sh, v, inodes) && ino in inodes && |inodes[ino]| >= INODE_BYTES && k < BLOCKS_WORD
    ensures var inodes1 := inodes[ino := SetWord(inodes[ino], k, w)];
      && Good(g, sh, v, inodes1) && SameTree(sh, v.disk, inodes, v.disk, inodes1)
      && SameContent(sh, v.disk, inodes, v.disk, inodes1)
  {
    var inodes1 := inodes[ino := SetWord(inodes[ino], k, w)];
    forall q | IsPos(sh, q) ensures At(v.disk, inodes1, q) == At(v.disk, inodes, q) {
      TouchAt(sh, v.disk, inodes, inodes1, q);
    }
  }

  lemma {:induction false} TouchAt(sh: Shape, disk: Disk, inodes: Inodes, inodes1: Inodes, q: Pos)
    requires IsPos(sh, q)
    requires forall ino: nat, root: nat :: root < ROOTS ==> RootCell(inodes1, ino, root) == RootCell(inodes, ino, root)
    ensures At(disk, inodes1, q) == At(disk, inodes, q)
    decreases |q.digits|
  {
    if q.digits != [] {
      ParentIsPos(sh, q);
      TouchAt(sh, disk, inodes, inodes1, Parent(q));
    }
  }

  /** num_sectors is updated and the inode written once more at the end of alloc_inode_block. */
  lemma MappedTouch(g: Geo, sh: Shape, v: Vol, i: Inodes, v1: Vol, i1: Inodes, q: Pos, d: u32, c: nat, w: u32)
    requires Mapped(g, sh, v, i, v1, i1, q, d, c) && q.ino < WORD_LIMIT && q.ino in sh.files
    requires q.ino in i && q.ino in i1 && |i1[q.ino]| == g.isize >= INODE_BYTES
    ensures var raw := SetWord(i1[q.ino], SECTORS_WORD, w);
      var v2 := WriteSlot(g, v1, q.ino, raw);
      && Mapped(g, sh, v, i, v2, i1[q.ino := raw], q, d, c)
      && TableInodes(g, sh, v2) == TableInodes(g, sh, v1)[q.ino := raw]
  {
    assert Unfold(0);
    var raw := SetWord(i1[q.ino], SECTORS_WORD, w);
    var i2 := i1[q.ino := raw];
    TouchInode(g, sh, v1, i1, q.ino, SECTORS_WORD, w);
    SlotGrown(g, sh, v1, i2, q.ino, raw);
    var v2 := WriteSlot(g, v1, q.ino, raw);
    assert SameHead(i[q.ino], i1[q.ino]);
    assert SameHeads(i, i2, q.ino);
    WayIsPos(sh, q);
    assert Placed(sh, v, i, v2, i2, q, d);
    assert MappedIs(g, sh, v, i, v2, i2, q, d, c, 0);
  }
}
