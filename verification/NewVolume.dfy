/** Volumes that hold no file data yet are sound: where every run of the storage model can start. */
module NewVolume {
  import opened Machine
  import opened PointerTree
  import opened OwnedTree
  import opened Volume
  import opened InodeTable
  import opened FileView
  import opened FileBytes

  /** The bitmaps mark the volume's own blocks; unmarked blocks and block 0 hold zeros. */
  ghost predicate BlocksClear(g: Geo, sh: Shape, v: Vol) {
    && g.bpg > 0 && |v.disk| > 0 && (forall n :: 0 <= n < |v.disk| ==> |v.disk[n]| == g.bs)
    && AllZero(v.disk[0]) && 0 in sh.meta && sh.meta <= Used(g, v)
    && (forall n :: 0 <= n < |v.disk| && n !in Used(g, v) ==> AllZero(v.disk[n]))
  }

  /** No file has a block. */
  ghost predicate FilesEmpty(sh: Shape, inodes: Inodes) {
    && (forall ino :: ino in sh.files ==> ino in inodes && |inodes[ino]| >= INODE_BYTES)
    && (forall ino, root: nat :: ino in sh.files && root < ROOTS ==> RootCell(inodes, ino, root) == 0)
  }

  ghost predicate NoData(g: Geo, sh: Shape, v: Vol, inodes: Inodes) {
    BlocksClear(g, sh, v) && FilesEmpty(sh, inodes)
  }

  lemma {:induction false} NoPointer(g: Geo, sh: Shape, v: Vol, inodes: Inodes, q: Pos)
    requires NoData(g, sh, v, inodes) && IsPos(sh, q)
    ensures At(v.disk, inodes, q) == 0
    decreases |q.digits|
  {
    if q.digits != [] {
      ParentIsPos(sh, q);
      NoPointer(g, sh, v, inodes, Parent(q));
      ZeroCell(v.disk, 0, LastDigit(q));
    }
  }

  lemma NoDataGood(g: Geo, sh: Shape, v: Vol, inodes: Inodes)
    requires Layout(g, sh, |v.disk|, v.bgds) && Counted(g, v) && BgdsOnDisk(v) && NoData(g, sh, v, inodes)
    ensures Good(g, sh, v, inodes)
  {
    forall q | IsPos(sh, q) ensures At(v.disk, inodes, q) == 0 {
      NoPointer(g, sh, v, inodes, q);
    }
    LayoutMeans(g, sh, |v.disk|, v.bgds);
    assert Inv(sh, v.disk, inodes, Used(g, v));
    MakeGood(g, sh, v, inodes);
  }

  // ---- one such volume -----------------------------------------------------------------------------

  const SMALL: Geo := Geo(1024, 256, 8, 1, 1, 128, 1)
  const SMALL_SHAPE: Shape := Shape(256, {1, 2}, {0, 1, 2, 3, 4})

  /** A bitmap in which bits 224 to 255 are clear, or none. */
  function SmallBitmap(full: bool): (r: seq<byte>)
    ensures |r| == 1024
  {
    seq(1024, k => if 28 <= k < 32 && !full then 0 else 255)
  }

  function Zeros(n: nat): (r: seq<byte>)
    ensures |r| == n && AllZero(r)
  {
    seq(n, _ => 0)
  }

  function SmallBgds(full: bool): seq<Bgd> {
    [Bgd(3, 0, 4, if full then 0 else 32, 0, 0, 0, 0, 0)]
  }

  function SmallBlock(full: bool, n: nat): (r: seq<byte>)
    ensures |r| == 1024 && (n != 2 && n != 3 ==> AllZero(r))
  {
    if n == 3 then SmallBitmap(full)
    else if n == 2 then TableSlice(SmallBgds(full), 1024, 0)
    else Zeros(1024)
  }

  /** 256 blocks: boot, superblock, descriptors, bitmap, inode table, 251 for data; the last 32 are free, or none is. */
  function SmallVolume(full: bool): (r: Vol)
    ensures |r.disk| == 256 && r.disk[3] == SmallBitmap(full) && r.bgds == SmallBgds(full)
    ensures forall n :: 0 <= n < 256 ==> |r.disk[n]| == 1024 && (n != 2 && n != 3 ==> AllZero(r.disk[n]))
  {
    Vol(seq(256, n requires 0 <= n < 256 => SmallBlock(full, n)), SmallBgds(full))
  }

  /** A volume whose one descriptor block is what rewrite_bgds would write. */
  ghost predicate OneBlock(g: Geo, v: Vol) {
    && 0 < g.bs && g.bgdBlocks == 1 && 3 <= |v.disk| && BGD_BYTES * |v.bgds| <= g.bs
    && v.disk[2] == TableSlice(v.bgds, g.bs, 0)
  }

  lemma Rewritten(g: Geo, v: Vol)
    ensures OneBlock(g, v) ==> BgdsOnDisk(v)
  {
    if OneBlock(g, v) {
      assert RewriteBgds(g, v).disk == v.disk;
      BgdsRewritten(g, v);
    }
  }

  lemma SmallSecond(full: bool)
    ensures SmallVolume(full).disk[2] == TableSlice(SmallVolume(full).bgds, 1024, 0)
  {
    assert SmallVolume(full).disk[2] == SmallBlock(full, 2);
  }

  /** A mount finds its one descriptor. */
  lemma SmallMounted(full: bool)
    ensures BgdsOnDisk(SmallVolume(full))
  {
    SmallSecond(full);
    Rewritten(SMALL, SmallVolume(full));
  }

  /** The inodes as its table holds them. */
  function SmallInodes(full: bool): Inodes {
    TableInodes(SMALL, SMALL_SHAPE, SmallVolume(full))
  }

  lemma SmallSlot(full: bool, ino: u32)
    requires ino in SMALL_SHAPE.files
    ensures |Slot(SMALL, SmallVolume(full), ino)| == INODE_BYTES && AllZero(Slot(SMALL, SmallVolume(full), ino))
  {
    var v := SmallVolume(full);
    SmallLayout(full);
    SlotPlace(SMALL, SMALL_SHAPE, v, ino);
    assert SlotBlock(SMALL, v.bgds, ino) == 4;
  }

  lemma {:induction false} NoBit(n: nat)
    ensures !Bit(0, n)
  {
    if n > 0 {
      NoBit(n - 1);
    }
  }

  lemma SmallBit(full: bool, k: nat)
    requires k < 8192
    ensures BitOf(SmallBitmap(full), k) <==> full || !(224 <= k < 256)
  {
    BitOfIs(SmallBitmap(full), k);
    NoBit(k % 32);
    Pow2Of32();
    AllOnesBit(32, k % 32);
    assert k / 32 == 7 <==> 224 <= k < 256;
    assert Word(SmallBitmap(full), k / 32) == if k / 32 == 7 && !full then 0 else 0xFFFF_FFFF;
  }

  lemma {:induction false} SmallZeroBits(full: bool, k: nat)
    requires k <= 8192
    ensures ZeroBits(SmallBitmap(full), k) == if full || k < 224 then 0 else if k < 256 then k - 224 else 32
  {
    if k > 0 {
      SmallZeroBits(full, k - 1);
      SmallBit(full, k - 1);
    }
  }

  lemma SmallMarked(full: bool, n: nat)
    ensures IsFree(SMALL, SmallVolume(full), n) <==> 224 <= n < 256 && !full
  {
    if n < 256 {
      SmallBit(full, n);
    }
  }

  lemma SmallCounted(full: bool)
    ensures Counted(SMALL, SmallVolume(full))
  {
    var v := SmallVolume(full);
    forall n: nat ensures IsFree(SMALL, v, n) ==> n < 256 {
      SmallMarked(full, n);
    }
    forall i, m | 0 <= i < 1 && 256 <= m < 8192 ensures MarkedBit(v, i, m) {
      SmallBit(full, m);
    }
    SmallZeroBits(full, 8192);
    assert GroupCounted(SMALL, v, 0);
    assert CountedIs(SMALL, v, 0);
  }

  lemma SmallUsed(full: bool)
    ensures forall n: nat :: n in Used(SMALL, SmallVolume(full)) <==> n < if full then 256 else 224
  {
    forall n: nat ensures n in Used(SMALL, SmallVolume(full)) <==> n < if full then 256 else 224 {
      SmallMarked(full, n);
    }
  }

  lemma SmallRoots(full: bool, ino: nat, root: nat)
    requires ino in SMALL_SHAPE.files && root < ROOTS
    ensures ino in SmallInodes(full) && |SmallInodes(full)[ino]| == INODE_BYTES
    ensures RootCell(SmallInodes(full), ino, root) == 0
  {
    SmallSlot(full, ino);
  }

  lemma SmallMeta(full: bool)
    ensures SMALL_SHAPE.meta <= Used(SMALL, SmallVolume(full))
  {
    SmallUsed(full);
  }

  lemma SmallClear(full: bool)
    ensures BlocksClear(SMALL, SMALL_SHAPE, SmallVolume(full))
  {
    SmallUsed(full);
    SmallMeta(full);
  }

  lemma SmallEmpty(full: bool)
    ensures FilesEmpty(SMALL_SHAPE, SmallInodes(full))
  {
    var inodes := SmallInodes(full);
    forall ino | ino in SMALL_SHAPE.files ensures ino in inodes && |inodes[ino]| >= INODE_BYTES {
      SmallRoots(full, ino, 0);
    }
    forall ino, root: nat | ino in SMALL_SHAPE.files && root < ROOTS ensures RootCell(inodes, ino, root) == 0 {
      SmallRoots(full, ino, root);
    }
  }

  lemma SmallNoData(full: bool)
    ensures NoData(SMALL, SMALL_SHAPE, SmallVolume(full), SmallInodes(full))
  {
    SmallClear(full);
    SmallEmpty(full);
  }

  lemma SmallLayout(full: bool)
    ensures Layout(SMALL, SMALL_SHAPE, 256, SmallVolume(full).bgds)
  {
    var bgds := SmallVolume(full).bgds;
    assert Sizes(SMALL, SMALL_SHAPE, 256) && Bitmaps(SMALL, SMALL_SHAPE, 256, bgds)
           && Tables(SMALL, SMALL_SHAPE, 256, bgds);
    assert LayoutIs(SMALL, SMALL_SHAPE, 256, bgds, 0);
  }

  /** It is sound, with the inodes that its own table holds: both files are empty and 32 blocks are free, or none. */
  lemma SmallGood(full: bool)
    ensures Good(SMALL, SMALL_SHAPE, SmallVolume(full), SmallInodes(full))
    ensures FreeCount(SmallVolume(full).bgds) == if full then 0 else 32
  {
    SmallLayout(full);
    SmallCounted(full);
    SmallMounted(full);
    SmallNoData(full);
    NoDataGood(SMALL, SMALL_SHAPE, SmallVolume(full), SmallInodes(full));
  }

  lemma SmallMissing(full: bool)
    ensures At(SmallVolume(full).disk, SmallInodes(full), Pos(1, 0, [])) == 0
  {
    SmallNoData(full);
    NoPointer(SMALL, SMALL_SHAPE, SmallVolume(full), SmallInodes(full), Pos(1, 0, []));
  }

  lemma FirstByte()
    ensures RangeWays(1024, 256, 1, 0, 1) == {Pos(1, 0, [])}
  {
    WaysNext(SMALL_SHAPE, 1, 0, 0);
    WayRoot(1, 0);
    assert PathOf(256, 1, 0) == Pos(1, 0, []);
    assert Ways(256, 1, 0, 0) == {};
  }

  /** Writing the first byte of a file goes through on the one and not on the other. */
  lemma FullVolume(full: bool)
    ensures RoomRange(SMALL, SMALL_SHAPE, SmallVolume(full), SmallInodes(full), 1, 0, 1) <==> !full
  {
    SmallGood(full);
    SmallMissing(full);
    FirstByte();
    LackingOne(SmallVolume(full).disk, SmallInodes(full), Pos(1, 0, []));
  }
}
