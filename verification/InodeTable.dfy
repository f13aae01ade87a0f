/** Inode slots (ext2_read_inode_metadata and ext2_write_inode_metadata, src/ext2.c:233-267). */
module InodeTable {
  import opened Machine
  import opened PointerTree
  import opened OwnedTree
  import opened Volume

  // ---- the arithmetic of the code --------------------------------------------------------------

  /** idx_in_group - 1; wraps for an inode number that is a multiple of inodes_per_group. */
  function IdxInGroup(g: Geo, ino: u32): u32
    requires g.ipg > 0
  {
    Sub32(Sub32(ino, ino / g.ipg * g.ipg), 1)
  }

  function BlockOffset(g: Geo, ino: u32): int
    requires g.ipg > 0 && g.bs > 0
  {
    Mul32(IdxInGroup(g, ino), g.isize) / g.bs
  }

  /** The byte offset of the slot inside its block. */
  function OffsetInBlock(g: Geo, ino: u32): u32
    requires g.ipg > 0 && g.bs > 0 && g.isize > 0
  {
    Mul32(Sub32(IdxInGroup(g, ino), Mul32(BlockOffset(g, ino), g.bs / g.isize)), g.isize)
  }

  // ---- where the slot should be ------------------------------------------------------------------

  /** Byte ((ino - 1) mod inodes_per_group) * inode_size of the group's table. */
  function SlotByte(g: Geo, ino: nat): nat
    requires g.ipg > 0
  {
    NumberOf(g.isize, if BitIn(g.ipg, ino) > 0 then BitIn(g.ipg, ino) - 1 else 0, 0)
  }

  function SlotBlock(g: Geo, bgds: seq<Bgd>, ino: nat): nat
    requires g.bs > 0 && g.ipg > 0
  {
    if GroupOf(g.ipg, ino) < |bgds| then bgds[GroupOf(g.ipg, ino)].tableInode + GroupOf(g.bs, SlotByte(g, ino)) else 0
  }

  function SlotOffset(g: Geo, ino: nat): nat
    requires g.bs > 0 && g.ipg > 0
  {
    BitIn(g.bs, SlotByte(g, ino))
  }

  ghost predicate SlotGeo(g: Geo) {
    BlockSize(g.bs) && g.isize == INODE_BYTES && g.ipg > 0 && g.ipg * g.isize <= g.tableBlocks * g.bs < WORD_LIMIT
  }

  lemma NumberSplit(per: nat, n: nat)
    requires per > 0
    ensures n / per >= 0 && n == n / per * per + n % per && n % per < per
  {
    assert n / per * per == per * (n / per);
  }

  lemma IdxExact(g: Geo, ino: u32)
    requires ValidIno(g, ino)
    ensures ino >= 1 && IdxInGroup(g, ino) == BitIn(g.ipg, ino) - 1 == (ino - 1) % g.ipg
    ensures ino / g.ipg == GroupOf(g.ipg, ino)
  {
    GroupIs(g.ipg, ino);
    NumberSplit(g.ipg, ino);
    var q, r := ino / g.ipg, ino % g.ipg;
    DivUnique(q, r - 1, g.ipg);
    NumberSplit(g.ipg, ino - 1);
  }

  /** `x` records of `size` bytes, `per` to a block: record x starts in block x / per. */
  lemma RecordPlace(x: nat, size: nat, per: nat)
    requires size > 0 && per > 0
    ensures per * size > 0 && x * size / (per * size) == x / per
    ensures x - x / per * per == x % per && x % per < per
    ensures (per * size) * (x / per) + x % per * size == x * size
    ensures x % per * size + size <= per * size
  {
    var q, r := x / per, x % per;
    NumberSplit(per, x);
    MulPos(per, size);
    assert x == q * per + r;
    calc {
      x * size;
      (q * per + r) * size;
      q * per * size + r * size;
      { assert q * per * size == q * (per * size); }
      q * (per * size) + r * size;
    }
    MulMono(r + 1, per, size);
    assert (r + 1) * size == r * size + size;
    DivUnique(q, r * size, per * size);
    assert q * (per * size) == (per * size) * q;
  }

  lemma MulSign(x: nat, y: int)
    ensures y <= 0 ==> x * y <= 0
  {
  }

  lemma BlockOfRecords(bs: nat, size: nat)
    requires size > 0 && bs > 0 && bs % size == 0
    ensures bs / size > 0 && bs == bs / size * size
  {
    assert bs == size * (bs / size) + bs % size;
    assert size * (bs / size) == bs / size * size;
    MulSign(size, bs / size);
  }

  lemma SlotByteIs(g: Geo, ino: u32)
    requires ValidIno(g, ino)
    ensures ino >= 1 && SlotByte(g, ino) == (ino - 1) % g.ipg * g.isize == IdxInGroup(g, ino) * g.isize
  {
    IdxExact(g, ino);
    NumberIs(g.isize, IdxInGroup(g, ino), 0);
  }

  lemma SmallProduct(a: int, b: int, r: nat)
    requires a * b == r < WORD_LIMIT
    ensures Mul32(a, b) == r
  {
  }

  /** Nothing wraps for an inode of the group. */
  lemma PlaceCode(g: Geo, ino: u32)
    requires SlotGeo(g) && ValidIno(g, ino)
    ensures var x, per := IdxInGroup(g, ino), g.bs / g.isize;
      per > 0 && BlockOffset(g, ino) == x / per && OffsetInBlock(g, ino) == x % per * g.isize
  {
    IdxExact(g, ino);
    var x, per := IdxInGroup(g, ino), g.bs / g.isize;
    BlockOfRecords(g.bs, g.isize);
    RecordPlace(x, g.isize, per);
    MulMono(x, g.ipg, g.isize);
    SmallProduct(x, g.isize, x * g.isize);
    SmallProduct(x / per, per, x / per * per);
    SmallProduct(x % per, g.isize, x % per * g.isize);
  }

  /** The block and offset the code computes are the ones of byte ((ino - 1) mod inodes_per_group) * inode_size
      of the group's table. */
  lemma CodeFindsSlot(g: Geo, ino: u32)
    requires SlotGeo(g) && ValidIno(g, ino)
    ensures BlockOffset(g, ino) == GroupOf(g.bs, SlotByte(g, ino)) && OffsetInBlock(g, ino) == SlotOffset(g, ino)
    ensures g.bs * BlockOffset(g, ino) + OffsetInBlock(g, ino) == SlotByte(g, ino)
    ensures SlotOffset(g, ino) + g.isize <= g.bs
  {
    SlotByteIs(g, ino);
    var x, per := IdxInGroup(g, ino), g.bs / g.isize;
    BlockOfRecords(g.bs, g.isize);
    RecordPlace(x, g.isize, per);
    PlaceCode(g, ino);
    GroupIs(g.bs, SlotByte(g, ino));
    assert g.bs * (x / per) == x / per * g.bs;
  }

  /** Record `x` of fewer than `n` starts before block `blocks` of the run that holds them. */
  lemma RecordInside(x: nat, n: nat, size: nat, bs: nat, blocks: nat, b: nat, rest: nat)
    requires x < n && n * size <= blocks * bs && x * size == b * bs + rest && size > 0
    ensures b < blocks
  {
    MulMono(x + 1, n, size);
    assert (x + 1) * size == x * size + size;
    MulMonoIf(blocks, b, bs);
  }

  lemma SlotInside(g: Geo, ino: u32)
    requires SlotGeo(g) && ValidIno(g, ino)
    ensures GroupOf(g.bs, SlotByte(g, ino)) < g.tableBlocks
  {
    SlotByteIs(g, ino);
    IdxExact(g, ino);
    GroupIs(g.bs, SlotByte(g, ino));
    RecordInside(IdxInGroup(g, ino), g.ipg, g.isize, g.bs, g.tableBlocks, GroupOf(g.bs, SlotByte(g, ino)),
                 BitIn(g.bs, SlotByte(g, ino)));
  }

  /** The slot lies in the table of the inode's own group. */
  lemma SlotInTable(g: Geo, bgds: seq<Bgd>, ino: u32)
    requires SlotGeo(g) && |bgds| == g.groups && ValidIno(g, ino)
    ensures InTable(g, bgds, GroupOf(g.ipg, ino), SlotBlock(g, bgds, ino))
  {
    SlotInside(g, ino);
  }

  lemma RecordsApart(x: nat, y: nat, size: nat)
    requires x != y
    ensures x * size + size <= y * size || y * size + size <= x * size
  {
    assert (x + 1) * size == x * size + size && (y + 1) * size == y * size + size;
    MulMonoIf(x + 1, y, size);
    MulMonoIf(y + 1, x, size);
  }

  lemma SlotBytesApart(g: Geo, ino: u32, jno: u32)
    requires ValidIno(g, ino) && ValidIno(g, jno) && ino != jno && GroupOf(g.ipg, ino) == GroupOf(g.ipg, jno)
    ensures SlotByte(g, ino) + g.isize <= SlotByte(g, jno) || SlotByte(g, jno) + g.isize <= SlotByte(g, ino)
  {
    SlotByteIs(g, ino);
    SlotByteIs(g, jno);
    IdxExact(g, ino);
    IdxExact(g, jno);
    GroupIs(g.ipg, ino);
    GroupIs(g.ipg, jno);
    RecordsApart(IdxInGroup(g, ino), IdxInGroup(g, jno), g.isize);
  }

  /** Distinct inodes have disjoint slots. */
  lemma SlotsDisjoint(g: Geo, sh: Shape, blocks: nat, bgds: seq<Bgd>, ino: u32, jno: u32)
    requires SlotGeo(g) && |bgds| == g.groups && Tables(g, sh, blocks, bgds)
    requires ValidIno(g, ino) && ValidIno(g, jno) && ino != jno && SlotBlock(g, bgds, ino) == SlotBlock(g, bgds, jno)
    ensures SlotOffset(g, ino) + g.isize <= SlotOffset(g, jno) || SlotOffset(g, jno) + g.isize <= SlotOffset(g, ino)
  {
    SlotInTable(g, bgds, ino);
    SlotInTable(g, bgds, jno);
    assert GroupOf(g.ipg, ino) == GroupOf(g.ipg, jno);
    SlotBytesApart(g, ino, jno);
    GroupIs(g.bs, SlotByte(g, ino));
    GroupIs(g.bs, SlotByte(g, jno));
  }

  /** The index the code computes is the right one exactly for inode numbers that are no multiple of
      inodes_per_group: for a multiple it is 2^32 - 1. */
  lemma IdxRight(g: Geo, ino: u32)
    requires 0 < g.ipg < WORD_LIMIT && ino > 0
    ensures IdxInGroup(g, ino) == (ino - 1) % g.ipg <==> ino % g.ipg != 0
    ensures ino % g.ipg == 0 ==> IdxInGroup(g, ino) == MINUS_ONE
  {
    NumberSplit(g.ipg, ino);
    NumberSplit(g.ipg, ino - 1);
    if ino % g.ipg != 0 {
      DivUnique(ino / g.ipg, ino % g.ipg - 1, g.ipg);
    }
  }

  /** Where the code looks for such an inode: in the last slot of the block in front of the table of group
      ino / inodes_per_group, which belongs to no table or to that of another inode. */
  lemma MultipleSlot(g: Geo, ino: u32, table: u32)
    requires BlockSize(g.bs) && g.isize == INODE_BYTES && 0 < g.ipg < WORD_LIMIT && ino > 0 && ino % g.ipg == 0
    requires 0 < table && table * g.bs < WORD_LIMIT
    ensures Mul32(Add32(table, BlockOffset(g, ino)), g.bs) == (table - 1) * g.bs
    ensures OffsetInBlock(g, ino) == g.bs - g.isize
  {
    IdxRight(g, ino);
    LastRecord(g.bs);
    var n := WORD_LIMIT / g.bs;
    assert BlockOffset(g, ino) == n - 1;
    assert (table + n - 1) * g.bs == (table - 1) * g.bs + n * g.bs;
    WrapOnce((table - 1) * g.bs);
  }

  lemma WrapOnce(x: nat)
    requires x < WORD_LIMIT
    ensures (x + WORD_LIMIT) % WORD_LIMIT == x
  {
  }

  /** Record 2^32 - 1 of 128 bytes is the last one of the last block of a byte space of 32 bits. */
  lemma LastRecord(bs: nat)
    requires BlockSize(bs)
    ensures WORD_LIMIT / bs * bs == WORD_LIMIT && WORD_LIMIT / bs <= 0x40_0000
    ensures Mul32(MINUS_ONE, INODE_BYTES) / bs == WORD_LIMIT / bs - 1
    ensures Mul32(Sub32(MINUS_ONE, Mul32(WORD_LIMIT / bs - 1, bs / INODE_BYTES)), INODE_BYTES) == bs - INODE_BYTES
  {
  }

  // ---- the table on disk -------------------------------------------------------------------------------

  predicate SlotHere(g: Geo, v: Vol, ino: nat) {
    g.bs > 0 && |v.bgds| == g.groups && ValidIno(g, ino) && SlotBlock(g, v.bgds, ino) < |v.disk|
  }

  /** The inode image stored for `ino`. */
  function Slot(g: Geo, v: Vol, ino: nat): seq<byte> {
    if SlotHere(g, v, ino) && SlotOffset(g, ino) + g.isize <= |v.disk[SlotBlock(g, v.bgds, ino)]|
    then v.disk[SlotBlock(g, v.bgds, ino)][SlotOffset(g, ino)..SlotOffset(g, ino) + g.isize]
    else []
  }

  /** The images of all files, as the inode tables hold them. */
  function TableInodes(g: Geo, sh: Shape, v: Vol): Inodes {
    map ino: nat | ino in sh.files :: Slot(g, v, ino)
  }

  lemma TableFits(g: Geo, sh: Shape, blocks: nat, bgds: seq<Bgd>, i: nat)
    requires LayoutIs(g, sh, blocks, bgds, 0) && i < g.groups
    ensures g.tableBlocks * g.bs < WORD_LIMIT
  {
    if g.tableBlocks > 0 {
      assert InTable(g, bgds, i, bgds[i].tableInode + (g.tableBlocks - 1));
      MulMono(g.tableBlocks, blocks, g.bs);
      assert blocks * g.bs == g.bs * blocks;
    }
  }

  /** Where a file's slot lies. */
  lemma SlotPlace(g: Geo, sh: Shape, v: Vol, ino: u32)
    requires Layout(g, sh, |v.disk|, v.bgds) && ino in sh.files
    ensures ValidIno(g, ino) && SlotGeo(g)
    ensures InTable(g, v.bgds, GroupOf(g.ipg, ino), SlotBlock(g, v.bgds, ino))
    ensures OwnArea(g, sh, |v.disk|, SlotBlock(g, v.bgds, ino)) && !IsBitmap(v.bgds, SlotBlock(g, v.bgds, ino))
    ensures SlotOffset(g, ino) + g.isize <= g.bs
  {
    LayoutMeans(g, sh, |v.disk|, v.bgds);
    TableFits(g, sh, |v.disk|, v.bgds, GroupOf(g.ipg, ino));
    SlotPlaceTables(g, sh, v, ino);
  }

  lemma SlotPlaceTables(g: Geo, sh: Shape, v: Vol, ino: u32)
    requires SlotGeo(g) && ValidIno(g, ino) && |v.bgds| == g.groups && Tables(g, sh, |v.disk|, v.bgds)
    ensures InTable(g, v.bgds, GroupOf(g.ipg, ino), SlotBlock(g, v.bgds, ino))
    ensures OwnArea(g, sh, |v.disk|, SlotBlock(g, v.bgds, ino)) && !IsBitmap(v.bgds, SlotBlock(g, v.bgds, ino))
    ensures SlotOffset(g, ino) + g.isize <= g.bs
  {
    SlotInTable(g, v.bgds, ino);
    CodeFindsSlot(g, ino);
  }

  ghost predicate IsBitmap(bgds: seq<Bgd>, n: nat) {
    exists i :: 0 <= i < |bgds| && bgds[i].bitmapBlock == n
  }

  /** The volume after ext2_write_inode_metadata. */
  function WriteSlot(g: Geo, v: Vol, ino: nat, raw: seq<byte>): Vol {
    if SlotHere(g, v, ino) && SlotOffset(g, ino) + |raw| <= |v.disk[SlotBlock(g, v.bgds, ino)]|
    then
      var n := SlotBlock(g, v.bgds, ino);
      v.(disk := v.disk[n := Splice(v.disk[n], SlotOffset(g, ino), raw)])
    else v
  }

  /** Writing an inode and reading it back returns it; every other file's inode stays. */
  lemma SlotReadBack(g: Geo, sh: Shape, v: Vol, ino: u32, raw: seq<byte>, jno: nat)
    requires Layout(g, sh, |v.disk|, v.bgds) && ino in sh.files && jno in sh.files && |raw| == g.isize
    requires forall n :: 0 <= n < |v.disk| ==> |v.disk[n]| == g.bs
    ensures Slot(g, WriteSlot(g, v, ino, raw), jno) == if jno == ino then raw else Slot(g, v, jno)
  {
    LayoutMeans(g, sh, |v.disk|, v.bgds);
    SlotPlace(g, sh, v, ino);
    SlotPlace(g, sh, v, jno);
    var v' := WriteSlot(g, v, ino, raw);
    if jno == ino {
      assert Slot(g, v', ino) == raw;
    } else if SlotBlock(g, v.bgds, ino) == SlotBlock(g, v.bgds, jno) {
      SlotsDisjoint(g, sh, |v.disk|, v.bgds, ino, jno);
      assert Slot(g, v', jno) == Slot(g, v, jno);
    }
  }
}
