/** The ext2 driver (src/ext2.c) over the ATA device. An inode in memory is the packed
    ext2_inode_s, a byte image whose fields are words of it. */
module Ext2 {
  import opened Machine
  import opened Ata
  import opened Blocks
  import opened PointerTree
  import opened OwnedTree
  import opened Volume
  import opened InodeTable
  import opened FileView
  import opened FileBytes
  import opened FileHistory

  /** `ext2_inode_s *inode`. */
  class Inode {
    var raw: seq<byte>

    constructor ()
      ensures raw == []
    {
      raw := [];
    }
  }

  class Ext2Fs {
    const dev: AtaDevice
    const geo: Geo
    const bgds: array<Bgd>
    ghost const sh: Shape

    constructor (dev: AtaDevice, geo: Geo, bgds: array<Bgd>, ghost sh: Shape)
      ensures this.dev == dev && this.geo == geo && this.bgds == bgds && this.sh == sh
    {
      this.dev := dev;
      this.geo := geo;
      this.bgds := bgds;
      this.sh := sh;
    }

    /** The blocks on the device. */
    ghost function DiskNow(): Disk
      reads dev.sectors
    {
      if geo.bs > 0 then BlocksOf(dev.Bytes(), geo.bs) else []
    }

    ghost function Volume(): Vol
      reads dev.sectors, bgds
    {
      Vol(DiskNow(), bgds[..])
    }

    // ---- blocks -----------------------------------------------------------------------------

    /** ext2_read_block */
    method ReadBlock(block: u32, buff: array<byte>)
      requires geo.bs > 0 && block < |Volume().disk| && geo.bs * |Volume().disk| < WORD_LIMIT && buff.Length == geo.bs
      modifies buff
      ensures Volume() == old(Volume())
      ensures buff[..] == Volume().disk[block]
    {
      ghost var bytes := dev.Bytes();
      BlockHere(bytes, geo.bs, block);
      BlocksApart(geo.bs, block, |DiskNow()|);
      var total := dev.Read(geo.bs * block, geo.bs, buff);
      assert buff[..] == BlockOf(bytes, geo.bs, block);
    }

    /** ext2_write_block */
    method WriteBlock(block: u32, buff: seq<byte>)
      requires geo.bs > 0 && block < |Volume().disk| && geo.bs * |Volume().disk| < WORD_LIMIT && |buff| == geo.bs
      modifies dev.sectors
      ensures Volume() == old(Volume()).(disk := old(Volume()).disk[block := buff])
    {
      ghost var bytes := dev.Bytes();
      BlocksApart(geo.bs, block, |DiskNow()|);
      BlockWrite(bytes, geo.bs, block, buff);
      var total := dev.Write(geo.bs * block, geo.bs, buff);
      assert buff[..geo.bs] == buff;
    }

    /** rewrite_bgds */
    method RewriteDescriptors()
      requires geo.bs > 0 && 2 + geo.bgdBlocks <= |Volume().disk| && geo.bs * |Volume().disk| < WORD_LIMIT
      modifies dev.sectors
      ensures Volume() == RewriteBgds(geo, old(Volume()))
      ensures BGD_BYTES * bgds.Length <= geo.bs * geo.bgdBlocks ==> BgdsOnDisk(Volume())
    {
      ghost var v := Volume();
      if BGD_BYTES * bgds.Length <= geo.bs * geo.bgdBlocks {
        BgdsRewritten(geo, v);
      }
      BlockNumberSmall(geo.bs, |v.disk|);
      var i := 0;
      assert v.disk == RewriteSome(geo, v, 0).disk;
      while i < geo.bgdBlocks
        invariant 0 <= i <= geo.bgdBlocks && Volume() == RewriteSome(geo, v, i)
      {
        RewriteNext(geo, v, i);
        WriteBlock(2 + i, TableSlice(bgds[..], geo.bs, i));
        i := i + 1;
      }
    }

    // ---- block allocation -----------------------------------------------------------------------

    /** The writing half of ext2_alloc_block: bit `n` of word `j` of group `i` was found clear. */
    method MarkBit(i: nat, j: nat, n: nat, buf: array<byte>)
      requires geo.bs > 0 && geo.bs * |DiskNow()| < WORD_LIMIT && 2 + geo.bgdBlocks <= |DiskNow()|
      requires i < bgds.Length && bgds[i].bitmapBlock < |DiskNow()| && 4 * j + 4 <= geo.bs && n < 32
      requires buf[..] == DiskNow()[bgds[i].bitmapBlock]
      modifies dev.sectors, bgds, buf
      ensures Volume() == MarkAndCount(geo, old(Volume()), i, j, n)
      ensures BGD_BYTES * bgds.Length <= geo.bs * geo.bgdBlocks ==> BgdsOnDisk(Volume())
    {
      ghost var v := Volume();
      var bitmapBlck := bgds[i].bitmapBlock;
      StoreWord(buf, j, SetBit32(Word(buf[..], j), n));
      WriteBlock(bitmapBlck, buf[..]);
      ghost var v1 := Volume();
      bgds[i] := bgds[i].(freeBlocks := Dec16(bgds[i].freeBlocks));
      assert Volume() == Vol(v1.disk, v.bgds[i := v.bgds[i].(freeBlocks := Dec16(v.bgds[i].freeBlocks))]);
      RewriteDescriptors();
    }

    /** The clear bit at which the scan stops is taken. */
    method TakeFound(i: nat, j: nat, n: nat, buf: array<byte>) returns (no: u32)
      requires geo.bs * |DiskNow()| < WORD_LIMIT && Layout(geo, sh, |DiskNow()|, bgds[..]) && Counted(geo, Volume())
      requires i < geo.groups && i < bgds.Length && j < geo.bs / 4 && n < 32
      requires Scanned(geo, Volume(), i, 32 * j + n) && !MarkedBit(Volume(), i, 32 * j + n)
      requires bgds[i].bitmapBlock < |DiskNow()| && buf[..] == DiskNow()[bgds[i].bitmapBlock]
      modifies dev.sectors, bgds, buf
      ensures !NoneFree(geo, old(Volume())) && no < |DiskNow()| && LeastFree(geo, old(Volume()), no)
      ensures no != MINUS_ONE && Volume() == TakeNumber(geo, old(Volume()), no)
      ensures BgdsOnDisk(Volume())
    {
      ghost var v := Volume();
      BgdsFit(geo, sh, |v.disk|, v.bgds);
      Basics(geo, sh, |v.disk|, v.bgds);
      ghost var found := FoundIs(geo, sh, v, i, j, n);
      no := i * geo.bpg + j * 32 + n;
      assert no == found;
      MarkBit(i, j, n, buf);
    }

    /** The scan of one group. */
    method ScanGroup(i: nat, buf: array<byte>) returns (j: nat, n: nat)
      requires geo.bs % 4 == 0 && i < |Volume().bgds| && Scanned(geo, Volume(), i, 0)
      requires bgds[i].bitmapBlock < |DiskNow()| && buf[..] == DiskNow()[bgds[i].bitmapBlock] && buf.Length == geo.bs
      ensures j <= geo.bs / 4 && Scanned(geo, Volume(), i, 32 * j + n)
      ensures j < geo.bs / 4 ==> n < 32 && !MarkedBit(Volume(), i, 32 * j + n)
      ensures j == geo.bs / 4 ==> n == 0
    {
      ghost var v, b := Volume(), buf[..];
      j, n := FirstClear(buf, b);
      ScannedHere(geo, v, i, 32 * j + n, b);
    }

    /** One round of the outer loop of ext2_alloc_block. */
    method TryGroup(i: nat, buf: array<byte>) returns (no: u32)
      requires Layout(geo, sh, |DiskNow()|, bgds[..]) && Counted(geo, Volume())
      requires i < geo.groups && Scanned(geo, Volume(), i, 0) && buf.Length == geo.bs
      modifies dev.sectors, bgds, buf
      ensures no == MINUS_ONE ==> Volume() == old(Volume()) && Scanned(geo, Volume(), i + 1, 0)
      ensures no != MINUS_ONE ==> !NoneFree(geo, old(Volume())) && LeastFree(geo, old(Volume()), no)
      ensures no != MINUS_ONE ==> Volume() == TakeNumber(geo, old(Volume()), no) && BgdsOnDisk(Volume())
    {
      ghost var v := Volume();
      Basics(geo, sh, |v.disk|, v.bgds);
      if bgds[i].freeBlocks == 0 {
        EmptyGroup(geo, v, i);
        ScannedNext(geo, v, i);
        return MINUS_ONE;
      }
      CountedMeans(geo, v);
      assert GroupCounted(geo, v, i);
      ReadBlock(bgds[i].bitmapBlock, buf);
      var j, n := ScanGroup(i, buf);
      if j < geo.bs / 4 {
        no := TakeFound(i, j, n, buf);
        return;
      }
      ScannedGroup(geo, v, i, 32 * j);
      return MINUS_ONE;
    }

    /** ext2_alloc_block */
    method AllocBlock() returns (no: u32)
      requires Layout(geo, sh, |DiskNow()|, bgds[..]) && Counted(geo, Volume())
      modifies dev.sectors, bgds
      ensures no == MINUS_ONE <==> NoneFree(geo, old(Volume()))
      ensures no == MINUS_ONE ==> Volume() == old(Volume())
      ensures no != MINUS_ONE ==> LeastFree(geo, old(Volume()), no) && Volume() == TakeNumber(geo, old(Volume()), no)
      ensures no != MINUS_ONE ==> BgdsOnDisk(Volume())
    {
      var buf := new byte[geo.bs];
      ghost var v := Volume();
      ScannedNone(geo, v);
      var i := 0;
      while i < geo.groups
        invariant 0 <= i <= geo.groups && Volume() == v && Scanned(geo, v, i, 0)
      {
        no := TryGroup(i, buf);
        if no != MINUS_ONE {
          return;
        }
        i := i + 1;
      }
      ScannedAll(geo, v);
      return MINUS_ONE;
    }

    // ---- inodes ---------------------------------------------------------------------------------

    /** The inode images while inode `ino` is being worked on in memory. */
    ghost function Now(inode: Inode, ino: nat): Inodes
      reads dev.sectors, bgds, inode
    {
      TableInodes(geo, sh, Volume())[ino := inode.raw]
    }

    /** ext2_read_inode_metadata */
    method ReadInodeMetadata(inode: Inode, inoIdx: u32)
      requires Layout(geo, sh, |DiskNow()|, bgds[..]) && inoIdx in sh.files
      modifies inode
      ensures inode.raw == Slot(geo, Volume(), inoIdx) && |inode.raw| == geo.isize
      ensures Volume() == old(Volume())
    {
      LayoutMeans(geo, sh, |DiskNow()|, bgds[..]);
      SlotPlace(geo, sh, Volume(), inoIdx);
      BlockNumberSmall(geo.bs, |DiskNow()|);
      IdxExact(geo, inoIdx);
      CodeFindsSlot(geo, inoIdx);
      var group := inoIdx / geo.ipg;
      var blockOffset := BlockOffset(geo, inoIdx);
      var offset := OffsetInBlock(geo, inoIdx);
      var bufBlock := new byte[geo.bs];
      var inodeTable := bgds[group].tableInode;
      ReadBlock(inodeTable + blockOffset, bufBlock);
      inode.raw := bufBlock[offset..offset + geo.isize];
    }

    /** ext2_write_inode_metadata */
    method WriteInodeMetadata(inode: Inode, inoIdx: u32)
      requires Layout(geo, sh, |DiskNow()|, bgds[..]) && inoIdx in sh.files && |inode.raw| == geo.isize
      modifies dev.sectors
      ensures Volume() == WriteSlot(geo, old(Volume()), inoIdx, inode.raw)
    {
      LayoutMeans(geo, sh, |DiskNow()|, bgds[..]);
      ghost var v := Volume();
      SlotPlace(geo, sh, v, inoIdx);
      BlockNumberSmall(geo.bs, |DiskNow()|);
      IdxExact(geo, inoIdx);
      CodeFindsSlot(geo, inoIdx);
      var group := inoIdx / geo.ipg;
      var blockOffset := BlockOffset(geo, inoIdx);
      var offset := OffsetInBlock(geo, inoIdx);
      var bufBlock := new byte[geo.bs];
      var inodeTable := bgds[group].tableInode;
      ReadBlock(inodeTable + blockOffset, bufBlock);
      Memcpy(bufBlock, offset, inode.raw);
      WriteBlock(inodeTable + blockOffset, bufBlock[..]);
    }

    /** The inode table holds what is in memory. */
    ghost predicate Synced(inode: Inode, ino: nat)
      reads dev.sectors, bgds, inode
    {
      Now(inode, ino) == TableInodes(geo, sh, Volume())
    }

    // ---- the pointer tree --------------------------------------------------------------------------

    /** Inode `ino` is being worked on in memory, and the volume is sound with that inode image. */
    ghost predicate Working(inode: Inode, ino: nat)
      reads dev.sectors, bgds, inode
    {
      Suited(geo, sh) && ino in sh.files && |inode.raw| == geo.isize && Good(geo, sh, Volume(), Now(inode, ino))
    }

    /** Inode `ino` is in memory, and the volume's layout is in order. */
    ghost predicate Laid(inode: Inode, ino: nat)
      reads dev.sectors, bgds, inode
    {
      Suited(geo, sh) && Layout(geo, sh, |DiskNow()|, bgds[..]) && ino in sh.files && |inode.raw| == geo.isize
    }

    /** All pointer blocks on the way to `q` are on the device. */
    ghost predicate Walkable(inode: Inode, q: Pos)
      reads dev.sectors, bgds, inode
    {
      && Laid(inode, q.ino) && IsPos(sh, q)
      && forall r :: r in Above(q) ==> At(DiskNow(), Now(inode, q.ino), r) < |DiskNow()|
    }

    ghost predicate ReadableIs(inode: Inode, ino: nat, inodeBlock: nat, k: nat)
      reads dev.sectors, bgds, inode
    {
      && sh.p > 0 && inodeBlock < MaxBlocks(sh.p) && ino in sh.files && Walkable(inode, PathOf(sh.p, ino, inodeBlock))
      && (At(DiskNow(), Now(inode, ino), PathOf(sh.p, ino, inodeBlock)) < |DiskNow()|
          || At(DiskNow(), Now(inode, ino), PathOf(sh.p, ino, inodeBlock)) == MINUS_ONE)
    }

    /** The inode block can be looked up, and it is on the device or block -1. */
    ghost predicate Readable(inode: Inode, ino: nat, inodeBlock: nat)
      reads dev.sectors, bgds, inode
    {
      (if forall k: nat :: ReadableIs(inode, ino, inodeBlock, k) then Clean else Corrupt).Clean?
    }

    lemma ReadableMeans(inode: Inode, ino: nat, inodeBlock: nat)
      requires Readable(inode, ino, inodeBlock)
      ensures ReadableIs(inode, ino, inodeBlock, 0)
    {
    }

    lemma GoodReadable(inode: Inode, ino: nat, inodeBlock: nat)
      requires Working(inode, ino) && sh.p > 0 && inodeBlock < MaxBlocks(sh.p)
      ensures Readable(inode, ino, inodeBlock)
              && At(DiskNow(), Now(inode, ino), PathOf(sh.p, ino, inodeBlock)) < |DiskNow()|
    {
      GoodWalk(inode, ino, inodeBlock);
      PathIndex(sh, ino, inodeBlock);
      InRange(geo, sh, Volume(), Now(inode, ino), PathOf(sh.p, ino, inodeBlock));
    }

    lemma GoodWalk(inode: Inode, ino: nat, inodeBlock: nat)
      requires Working(inode, ino) && sh.p > 0 && inodeBlock < MaxBlocks(sh.p)
      ensures Walkable(inode, PathOf(sh.p, ino, inodeBlock))
    {
      GoodLayout(geo, sh, Volume(), Now(inode, ino));
      PathIndex(sh, ino, inodeBlock);
      WayIsPos(sh, PathOf(sh.p, ino, inodeBlock));
      forall r | r in Above(PathOf(sh.p, ino, inodeBlock)) ensures At(DiskNow(), Now(inode, ino), r) < |DiskNow()| {
        InRange(geo, sh, Volume(), Now(inode, ino), r);
      }
    }

    /** get_disk_block_number */
    method GetDiskBlockNumber(inode: Inode, ghost ino: nat, inodeBlock: u32) returns (ret: u32)
      requires sh.p > 0 && inodeBlock < MaxBlocks(sh.p) && Walkable(inode, PathOf(sh.p, ino, inodeBlock))
               && ino in sh.files
      ensures Volume() == old(Volume())
      ensures ret == At(DiskNow(), Now(inode, ino), PathOf(sh.p, ino, inodeBlock))
    {
      PathIndex(sh, ino, inodeBlock);
      LayoutRadix(geo, sh, |DiskNow()|, bgds[..]);
      var tmp := new byte[geo.bs];
      var route := FindRoute(geo.bs, ino, inodeBlock);
      RouteAbove(sh.p, ino, route);
      match route
      case Direct(_) =>
        ret := Word(inode.raw, BLOCKS_WORD + inodeBlock);
      case Single(a) =>
        ret := GetOne(inode, ino, a, tmp);
      case Double(c, d) =>
        ret := GetTwo(inode, ino, DIRECT_BLOCKS + 1, c, d, tmp);
      case Triple(e, f, g) =>
        ret := GetThree(inode, ino, e, f, g, tmp);
    }

    /** Word `x` of block `block`, the pointer block at position `q`. */
    method ReadPointer(inode: Inode, ghost q: Pos, block: u32, x: nat, tmp: array<byte>) returns (ret: u32)
      requires Laid(inode, q.ino) && IsPos(sh, q) && |q.digits| < Depth(q.root) && x < sh.p && tmp.Length == geo.bs
      requires block == At(DiskNow(), Now(inode, q.ino), q) < |DiskNow()|
      modifies tmp
      ensures Volume() == old(Volume()) && ret == At(DiskNow(), Now(inode, q.ino), Child(q, x))
    {
      LayoutRadix(geo, sh, |DiskNow()|, bgds[..]);
      ChildPos(sh, q, x);
      ReadBlock(block, tmp);
      ret := Word(tmp[..], x);
    }

    /** The single-indirect reads. */
    method GetOne(inode: Inode, ghost ino: nat, a: nat, tmp: array<byte>) returns (ret: u32)
      requires Laid(inode, ino) && At(DiskNow(), Now(inode, ino), Pos(ino, 12, [])) < |DiskNow()|
      requires a < sh.p && tmp.Length == geo.bs
      modifies tmp
      ensures Volume() == old(Volume())
      ensures ret == At(DiskNow(), Now(inode, ino), Pos(ino, 12, [a]))
    {
      ghost var root := Pos(ino, 12, []);
      LayoutRadix(geo, sh, |DiskNow()|, bgds[..]);
      ChildIs(ino, 12, a, 0);
      ret := ReadPointer(inode, root, Word(inode.raw, BLOCKS_WORD + DIRECT_BLOCKS), a, tmp);
    }

    /** The double-indirect reads, and the first two of the triple-indirect ones. */
    method GetTwo(inode: Inode, ghost ino: nat, slot: nat, c: nat, d: nat, tmp: array<byte>) returns (ret: u32)
      requires Laid(inode, ino) && DIRECT_BLOCKS < slot < ROOTS && c < sh.p && d < sh.p && tmp.Length == geo.bs
      requires At(DiskNow(), Now(inode, ino), Pos(ino, slot, [])) < |DiskNow()|
      requires At(DiskNow(), Now(inode, ino), Pos(ino, slot, [c])) < |DiskNow()|
      modifies tmp
      ensures Volume() == old(Volume())
      ensures ret == At(DiskNow(), Now(inode, ino), Pos(ino, slot, [c, d]))
    {
      ghost var root := Pos(ino, slot, []);
      LayoutRadix(geo, sh, |DiskNow()|, bgds[..]);
      ChildIs(ino, slot, c, d);
      var b1 := ReadPointer(inode, root, Word(inode.raw, BLOCKS_WORD + slot), c, tmp);
      ret := ReadPointer(inode, Child(root, c), b1, d, tmp);
    }

    /** The triple-indirect reads. */
    method GetThree(inode: Inode, ghost ino: nat, e: nat, f: nat, g: nat, tmp: array<byte>) returns (ret: u32)
      requires Laid(inode, ino) && e < sh.p && f < sh.p && g < sh.p && tmp.Length == geo.bs
      requires At(DiskNow(), Now(inode, ino), Pos(ino, 14, [])) < |DiskNow()|
      requires At(DiskNow(), Now(inode, ino), Pos(ino, 14, [e])) < |DiskNow()|
      requires At(DiskNow(), Now(inode, ino), Pos(ino, 14, [e, f])) < |DiskNow()|
      modifies tmp
      ensures Volume() == old(Volume())
      ensures ret == At(DiskNow(), Now(inode, ino), Pos(ino, 14, [e, f, g]))
    {
      ghost var q := Pos(ino, 14, [e, f]);
      assert Child(q, g) == Pos(ino, 14, [e, f, g]);
      var b2 := GetTwo(inode, ino, DIRECT_BLOCKS + 2, e, f, tmp);
      ret := ReadPointer(inode, q, b2, g, tmp);
    }

    // ---- growing a file ------------------------------------------------------------------------------

    /** Whether a transfer of block `block` stays on the device; block -1 starts at byte 2^32 - block_size. */
    method Reaches(block: u32) returns (there: bool)
      requires BlockSize(geo.bs) && geo.bs * |DiskNow()| < WORD_LIMIT && (block < |DiskNow()| || block == MINUS_ONE)
      ensures there <==> block < |DiskNow()|
    {
      DeviceEnd(dev.Bytes(), geo.bs, block);
      there := Mul32(geo.bs, block) + geo.bs <= SECTOR_SIZE * dev.sectors.Length;
    }

    /** The state (Volume(), Now(inode, ino)) has grown out of (v, inodes). */
    ghost predicate GrownFrom(v: Vol, inodes: Inodes, inode: Inode, ino: nat, ps: set<Pos>)
      reads dev.sectors, bgds, inode
    {
      Grown(geo, sh, v, inodes, Volume(), Now(inode, ino), ino, ps)
    }

    /** The missing blocks among `ps` can all be provided. */
    ghost predicate HasRoom(inode: Inode, ino: nat, ps: set<Pos>)
      reads dev.sectors, bgds, inode
    {
      Room(Volume(), Now(inode, ino), ps)
    }

    ghost predicate LostIs(inode: Inode, ino: nat, k: nat)
      reads dev.sectors, bgds, inode
    {
      Laid(inode, ino) && !Good(geo, sh, Volume(), Now(inode, ino))
    }

    /** The volume is not sound any more. */
    ghost predicate Lost(inode: Inode, ino: nat)
      reads dev.sectors, bgds, inode
    {
      (if forall k: nat :: LostIs(inode, ino, k) then Clean else Corrupt).Clean?
    }

    lemma LostMeans(inode: Inode, ino: nat)
      requires Lost(inode, ino)
      ensures Laid(inode, ino) && !Good(geo, sh, Volume(), Now(inode, ino))
    {
      assert LostIs(inode, ino, 0);
    }

    ghost predicate SettledIs(inode: Inode, ino: nat, done: bool, k: nat)
      reads dev.sectors, bgds, inode
    {
      Laid(inode, ino) && Synced(inode, ino) && (!done ==> Lost(inode, ino))
    }

    /** The inode table holds what is in memory, and if the driver has stopped at block -1 the volume is lost. */
    ghost predicate Settled(inode: Inode, ino: nat, done: bool)
      reads dev.sectors, bgds, inode
    {
      (if forall k: nat :: SettledIs(inode, ino, done, k) then Clean else Corrupt).Clean?
    }

    lemma SettledMeans(inode: Inode, ino: nat, done: bool)
      requires Settled(inode, ino, done)
      ensures Laid(inode, ino) && Synced(inode, ino) && (!done ==> Lost(inode, ino))
    {
      assert SettledIs(inode, ino, done, 0);
    }

    /** ext2_alloc_block while an inode is being worked on. */
    method NewBlock(inode: Inode, ghost ino: nat) returns (no: u32)
      requires Working(inode, ino)
      modifies dev.sectors, bgds
      ensures Working(inode, ino) && Now(inode, ino) == old(Now(inode, ino))
      ensures Served(geo, sh, old(Volume()), Now(inode, ino), Volume(), no, ino)
      ensures no == MINUS_ONE <==> old(FreeCount(bgds[..])) == 0
      ensures TableInodes(geo, sh, Volume()) == old(TableInodes(geo, sh, Volume()))
    {
      ghost var v, inodes := Volume(), Now(inode, ino);
      GoodLayout(geo, sh, v, inodes);
      Basics(geo, sh, |v.disk|, v.bgds);
      SomeFree(geo, v);
      no := AllocBlock();
      if no != MINUS_ONE {
        AllocatedStep(geo, sh, v, inodes, no, ino);
        GrownGood(geo, sh, v, inodes, Volume(), inodes, ino, {}, 1, 0);
        SameTable(geo, sh, v, Volume());
      }
      assert ServedIs(geo, sh, v, inodes, Volume(), no, ino, 0);
    }

    /** `q` is a missing or present pointer block of the inode being worked on. */
    ghost predicate PointerCell(inode: Inode, ino: nat, q: Pos)
      reads dev.sectors, bgds, inode
    {
      Working(inode, ino) && IsPos(sh, q) && !IsLeaf(q) && q.ino == ino && Reachable(DiskNow(), Now(inode, ino), q)
    }

    /** The state has come out of (v, i) by alloc_inode_metadata_block for the pointer block at `q`. */
    ghost predicate ObtainedFrom(v: Vol, i: Inodes, inode: Inode, q: Pos)
      reads dev.sectors, bgds, inode
    {
      Obtained(geo, sh, v, i, Volume(), Now(inode, q.ino), q)
    }

    /** The branch of alloc_inode_metadata_block that finds no block in inode->blocks[idx]. */
    method FillRoot(inode: Inode, inoIdx: u32, idx: nat)
      requires idx < ROOTS && PointerCell(inode, inoIdx, Pos(inoIdx, idx, []))
      requires At(DiskNow(), Now(inode, inoIdx), Pos(inoIdx, idx, [])) == 0
      modifies dev.sectors, bgds, inode
      ensures Laid(inode, inoIdx) && Synced(inode, inoIdx)
      ensures ObtainedFrom(old(Volume()), old(Now(inode, inoIdx)), inode, Pos(inoIdx, idx, []))
    {
      ghost var q := Pos(inoIdx, idx, []);
      ghost var v, inodes := Volume(), Now(inode, inoIdx);
      var no := NewBlock(inode, inoIdx);
      ghost var v1 := Volume();
      GoodLayout(geo, sh, v1, inodes);
      inode.raw := SetWord(inode.raw, BLOCKS_WORD + idx, no);
      RootFilled(geo, sh, v, inodes, v1, q, no, inode.raw);
      WriteInodeMetadata(inode, inoIdx);
      UpdateTwice(TableInodes(geo, sh, v1), inoIdx, inode.raw, inode.raw);
      UpdateTwice(TableInodes(geo, sh, v1), inoIdx, inodes[inoIdx as nat], inode.raw);
    }

    /** alloc_inode_metadata_block with block_ptr = &inode->blocks[idx], buff = NULL. */
    method AllocRootBlock(inode: Inode, inoIdx: u32, idx: nat) returns (r: u32)
      requires idx < ROOTS && PointerCell(inode, inoIdx, Pos(inoIdx, idx, []))
      modifies dev.sectors, bgds, inode
      ensures Laid(inode, inoIdx) && (old(Synced(inode, inoIdx)) ==> Synced(inode, inoIdx))
      ensures ObtainedFrom(old(Volume()), old(Now(inode, inoIdx)), inode, Pos(inoIdx, idx, []))
      ensures r == (if old(Word(inode.raw, BLOCKS_WORD + idx)) == 0 then 1 else 0)
      ensures r == 0 ==> Volume() == old(Volume()) && inode.raw == old(inode.raw)
    {
      ghost var q := Pos(inoIdx, idx, []);
      ghost var v, inodes := Volume(), Now(inode, inoIdx);
      if Word(inode.raw, BLOCKS_WORD + idx) == 0 {
        FillRoot(inode, inoIdx, idx);
        return 1;
      }
      GoodLayout(geo, sh, v, inodes);
      GrownNothing(geo, sh, v, inodes, inoIdx, {q});
      assert ObtainedIs(geo, sh, v, inodes, v, inodes, q, 0);
      return 0;
    }

    /** `*block_ptr = no` and the write of the block that is in. */
    method StoreCell(buff: array<byte>, idx: nat, no: u32, block: u32)
      requires geo.bs > 0 && block < |DiskNow()| && geo.bs * |DiskNow()| < WORD_LIMIT && 4 * idx + 4 <= buff.Length
      requires buff.Length == geo.bs && buff[..] == DiskNow()[block]
      modifies dev.sectors, buff
      ensures buff[..] == SetWord(old(buff[..]), idx, no) && Word(buff[..], idx) == no
      ensures Volume() == old(Volume()).(disk := old(DiskNow())[block := SetWord(old(DiskNow())[block], idx, no)])
    {
      StoreWord(buff, idx, no);
      WriteBlock(block, buff[..]);
    }

    /** The branch of alloc_inode_metadata_block that finds no block in buff[idx]. */
    method FillInner(inode: Inode, ghost q: Pos, buff: array<byte>, idx: nat, blockOverw: u32)
      requires PointerCell(inode, q.ino, q) && q.digits != [] && LastDigit(q) == idx
      requires IsPos(sh, Parent(q)) && blockOverw == At(DiskNow(), Now(inode, q.ino), Parent(q))
               && blockOverw < |DiskNow()|
      requires buff.Length == geo.bs && buff[..] == DiskNow()[blockOverw] && idx < sh.p
      requires At(DiskNow(), Now(inode, q.ino), q) == 0 && blockOverw != 0
      modifies dev.sectors, bgds, buff
      ensures TableInodes(geo, sh, Volume()) == old(TableInodes(geo, sh, Volume())) && Laid(inode, q.ino)
      ensures At(DiskNow(), Now(inode, q.ino), q) == Word(buff[..], idx)
      ensures ObtainedFrom(old(Volume()), old(Now(inode, q.ino)), inode, q)
    {
      ghost var v, inodes := Volume(), Now(inode, q.ino);
      NotMeta(geo, sh, v, inodes, Parent(q));
      var no := NewBlock(inode, q.ino);
      ghost var v1 := Volume();
      GoodLayout(geo, sh, v1, inodes);
      InnerFilled(geo, sh, v, inodes, v1, q, no, blockOverw);
      StoreCell(buff, idx, no, blockOverw);
      assert Volume() == v1.(disk := v1.disk[blockOverw := SetWord(v1.disk[blockOverw], idx, no)]);
    }

    /** alloc_inode_metadata_block with block_ptr = &buff[idx], buff being the content of block `blockOverw`. */
    method AllocInnerBlock(inode: Inode, ghost q: Pos, buff: array<byte>, idx: nat, blockOverw: u32) returns (r: u32)
      requires PointerCell(inode, q.ino, q) && q.digits != [] && LastDigit(q) == idx
      requires blockOverw == At(DiskNow(), Now(inode, q.ino), Parent(q)) && blockOverw < |DiskNow()|
      requires buff.Length == geo.bs && buff[..] == DiskNow()[blockOverw]
      modifies dev.sectors, bgds, buff
      ensures Laid(inode, q.ino) && TableInodes(geo, sh, Volume()) == old(TableInodes(geo, sh, Volume()))
      ensures At(DiskNow(), Now(inode, q.ino), q) == Word(buff[..], idx)
      ensures ObtainedFrom(old(Volume()), old(Now(inode, q.ino)), inode, q)
      ensures r == (if old(Word(buff[..], idx)) == 0 then 1 else 0)
      ensures r == 0 ==> Volume() == old(Volume()) && buff[..] == old(buff[..])
    {
      ghost var v, inodes := Volume(), Now(inode, q.ino);
      ParentIsPos(sh, q);
      Radix(geo, sh, v, inodes);
      if Word(buff[..], idx) == 0 {
        FillInner(inode, q, buff, idx, blockOverw);
        return 1;
      }
      GoodLayout(geo, sh, v, inodes);
      GrownNothing(geo, sh, v, inodes, q.ino, {q});
      assert ObtainedIs(geo, sh, v, inodes, v, inodes, q, 0);
      return 0;
    }

    /** `ret` holds the content of `tmp`, the block at position `q` of the inode being worked on. */
    ghost predicate Opened(inode: Inode, q: Pos, tmp: u32, ret: array<byte>)
      reads dev.sectors, bgds, inode, ret
    {
      && Working(inode, q.ino) && IsPos(sh, q) && !IsLeaf(q)
      && tmp == At(DiskNow(), Now(inode, q.ino), q) && 0 < tmp < |DiskNow()|
      && ret.Length == geo.bs && ret[..] == DiskNow()[tmp]
    }

    /** Make sure the pointer block in slot `slot` exists, and read it. */
    method OpenRoot(inode: Inode, inoIdx: u32, slot: nat, ret: array<byte>) returns (tmp: u32, done: bool)
      requires Working(inode, inoIdx) && DIRECT_BLOCKS <= slot < ROOTS && ret.Length == geo.bs
      modifies dev.sectors, bgds, inode, ret
      ensures done <==> old(HasRoom(inode, inoIdx, {Pos(inoIdx, slot, [])}))
      ensures done ==> Opened(inode, Pos(inoIdx, slot, []), tmp, ret)
      ensures done ==> GrownFrom(old(Volume()), old(Now(inode, inoIdx)), inode, inoIdx, {Pos(inoIdx, slot, [])})
      ensures !done ==> Lost(inode, inoIdx)
      ensures old(Synced(inode, inoIdx)) ==> Synced(inode, inoIdx)
    {
      ghost var v, inodes := Volume(), Now(inode, inoIdx);
      var _ := AllocRootBlock(inode, inoIdx, slot);
      LayoutRadix(geo, sh, |DiskNow()|, bgds[..]);
      tmp := Word(inode.raw, BLOCKS_WORD + slot);
      AtRoot(DiskNow(), Now(inode, inoIdx), inoIdx, slot);
      ObtainedMeans(geo, sh, v, inodes, Volume(), Now(inode, inoIdx), Pos(inoIdx, slot, []));
      BlockNumberSmall(geo.bs, |DiskNow()|);
      done := Reaches(tmp);
      if done {
        ReadBlock(tmp, ret);
      }
    }

    /** Make sure the pointer block named by word `x` of the opened one exists, and read it. */
    method Descend(inode: Inode, ghost q: Pos, tmp: u32, x: nat, ret: array<byte>) returns (next: u32, done: bool)
      requires Opened(inode, q, tmp, ret) && x < sh.p && |q.digits| + 1 < Depth(q.root)
      modifies dev.sectors, bgds, ret
      ensures done <==> old(HasRoom(inode, q.ino, {Child(q, x)}))
      ensures done ==> Opened(inode, Child(q, x), next, ret)
      ensures done ==> GrownFrom(old(Volume()), old(Now(inode, q.ino)), inode, q.ino, {Child(q, x)})
      ensures !done ==> Lost(inode, q.ino)
      ensures TableInodes(geo, sh, Volume()) == old(TableInodes(geo, sh, Volume()))
    {
      ghost var v, inodes, c := Volume(), Now(inode, q.ino), Child(q, x);
      ChildPos(sh, q, x);
      var _ := AllocInnerBlock(inode, c, ret, x, tmp);
      LayoutRadix(geo, sh, |DiskNow()|, bgds[..]);
      next := Word(ret[..], x);
      ObtainedMeans(geo, sh, v, inodes, Volume(), Now(inode, q.ino), c);
      BlockNumberSmall(geo.bs, |DiskNow()|);
      done := Reaches(next);
      if done {
        ReadBlock(next, ret);
      }
    }

    /** Write `d` into word `x` of the opened pointer block. */
    method StoreInBlock(inode: Inode, ghost q: Pos, tmp: u32, x: nat, ret: array<byte>, d: u32)
      requires Opened(inode, q, tmp, ret) && x < sh.p && |q.digits| < Depth(q.root)
      modifies dev.sectors, ret
      ensures Volume() == Store(old(Volume()), old(Now(inode, q.ino)), Child(q, x), d)
    {
      ghost var v, inodes := Volume(), Now(inode, q.ino);
      ChildPos(sh, q, x);
      NotMeta(geo, sh, v, inodes, q);
      InnerIs(v, inodes, Child(q, x), d, tmp);
      StoreWord(ret, x, d);
      WriteBlock(tmp, ret[..]);
    }

    /** The double- and triple-indirect cases up to the second pointer block. */
    method OpenTwo(inode: Inode, inoIdx: u32, slot: nat, c: nat, ret: array<byte>) returns (tmp: u32, done: bool)
      requires Working(inode, inoIdx) && DIRECT_BLOCKS < slot < ROOTS && c < sh.p && ret.Length == geo.bs
      modifies dev.sectors, bgds, inode, ret
      ensures done <==> old(HasRoom(inode, inoIdx, {Pos(inoIdx, slot, [])} + {Pos(inoIdx, slot, [c])}))
      ensures done ==> Opened(inode, Pos(inoIdx, slot, [c]), tmp, ret)
      ensures done ==> GrownFrom(old(Volume()), old(Now(inode, inoIdx)), inode, inoIdx,
                                 {Pos(inoIdx, slot, [])} + {Pos(inoIdx, slot, [c])})
      ensures !done ==> Lost(inode, inoIdx)
      ensures old(Synced(inode, inoIdx)) ==> Synced(inode, inoIdx)
    {
      ghost var v, inodes := Volume(), Now(inode, inoIdx);
      ghost var ps1, ps2 := {Pos(inoIdx, slot, [])}, {Pos(inoIdx, slot, [c])};
      RoomMore(v, inodes, ps1, ps1 + ps2);
      tmp, done := OpenRoot(inode, inoIdx, slot, ret);
      if !done {
        return;
      }
      ghost var v1, i1 := Volume(), Now(inode, inoIdx);
      ChildIs(inoIdx, slot, c, 0);
      ChildPos(sh, Pos(inoIdx, slot, []), c);
      RoomBoth(geo, sh, v, inodes, v1, i1, inoIdx, ps1, ps2);
      tmp, done := Descend(inode, Pos(inoIdx, slot, []), tmp, c, ret);
      if done {
        GrownBoth(geo, sh, v, inodes, v1, i1, Volume(), Now(inode, inoIdx), inoIdx, ps1, ps2);
      }
    }

    /** The triple-indirect case up to the third pointer block. */
    method OpenThree(inode: Inode, inoIdx: u32, e: nat, f: nat, ret: array<byte>) returns (tmp: u32, done: bool)
      requires Working(inode, inoIdx) && e < sh.p && f < sh.p && ret.Length == geo.bs
      modifies dev.sectors, bgds, inode, ret
      ensures done <==> old(HasRoom(inode, inoIdx,
                                    {Pos(inoIdx, 14, [])} + {Pos(inoIdx, 14, [e])} + {Pos(inoIdx, 14, [e, f])}))
      ensures done ==> Opened(inode, Pos(inoIdx, 14, [e, f]), tmp, ret)
      ensures done ==> GrownFrom(old(Volume()), old(Now(inode, inoIdx)), inode, inoIdx,
                                 {Pos(inoIdx, 14, [])} + {Pos(inoIdx, 14, [e])} + {Pos(inoIdx, 14, [e, f])})
      ensures !done ==> Lost(inode, inoIdx)
      ensures old(Synced(inode, inoIdx)) ==> Synced(inode, inoIdx)
    {
      ghost var v, inodes := Volume(), Now(inode, inoIdx);
      ghost var ps1, ps2 := {Pos(inoIdx, 14, [])} + {Pos(inoIdx, 14, [e])}, {Pos(inoIdx, 14, [e, f])};
      RoomMore(v, inodes, ps1, ps1 + ps2);
      tmp, done := OpenTwo(inode, inoIdx, DIRECT_BLOCKS + 2, e, ret);
      if !done {
        return;
      }
      ghost var v1, i1 := Volume(), Now(inode, inoIdx);
      ChildIs(inoIdx, 14, e, f);
      ChildPos(sh, Pos(inoIdx, 14, [e]), f);
      RoomBoth(geo, sh, v, inodes, v1, i1, inoIdx, ps1, ps2);
      tmp, done := Descend(inode, Pos(inoIdx, 14, [e]), tmp, f, ret);
      if done {
        GrownBoth(geo, sh, v, inodes, v1, i1, Volume(), Now(inode, inoIdx), inoIdx, ps1, ps2);
      }
    }

    /** The indirect cases of set_disk_block_number up to the store: open the last pointer block on the route. */
    method OpenLast(inode: Inode, inoIdx: u32, route: Route, ret: array<byte>) returns (tmp: u32, x: nat, done: bool)
      requires Working(inode, inoIdx) && RouteValid(sh.p, route) && !route.Direct? && ret.Length == geo.bs
      modifies dev.sectors, bgds, inode, ret
      ensures x < sh.p && RoutePos(inoIdx, route).digits != [] && LastDigit(RoutePos(inoIdx, route)) == x
      ensures done <==> RoomAbove(old(Volume()), old(Now(inode, inoIdx)), RoutePos(inoIdx, route))
      ensures done ==> Opened(inode, Parent(RoutePos(inoIdx, route)), tmp, ret)
      ensures done ==> GrownFrom(old(Volume()), old(Now(inode, inoIdx)), inode, inoIdx, Above(RoutePos(inoIdx, route)))
      ensures !done ==> Lost(inode, inoIdx)
      ensures old(Synced(inode, inoIdx)) ==> Synced(inode, inoIdx)
    {
      RouteParent(sh.p, inoIdx, route);
      RouteAbove(sh.p, inoIdx, route);
      match route
      case Single(a) =>
        tmp, done := OpenRoot(inode, inoIdx, DIRECT_BLOCKS, ret);
        x := a;
      case Double(c, d) =>
        tmp, done := OpenTwo(inode, inoIdx, DIRECT_BLOCKS + 1, c, ret);
        x := d;
      case Triple(e, f, g) =>
        tmp, done := OpenThree(inode, inoIdx, e, f, ret);
        x := g;
    }

    /** The outcome of storing `d` at `q` in memory and on disk, after growth to (v3, i3). */
    ghost predicate Stored(v3: Vol, i3: Inodes, inode: Inode, q: Pos, d: u32)
      reads dev.sectors, bgds, inode
    {
      StoredTo(geo, sh, v3, i3, Volume(), inode.raw, q, d)
    }

    /** The direct case of set_disk_block_number. */
    method StoreDirect(inode: Inode, inoIdx: u32, slot: nat, diskBlock: u32)
      requires Working(inode, inoIdx) && slot < DIRECT_BLOCKS
      modifies inode
      ensures Stored(old(Volume()), old(Now(inode, inoIdx)), inode, Pos(inoIdx, slot, []), diskBlock)
    {
      HookIs(Volume(), Now(inode, inoIdx), Pos(inoIdx, slot, []), diskBlock);
      ghost var v, inodes := Volume(), Now(inode, inoIdx);
      inode.raw := SetWord(inode.raw, BLOCKS_WORD + slot, diskBlock);
      assert StoredIs(geo, sh, v, inodes, Volume(), inode.raw, Pos(inoIdx, slot, []), diskBlock, 0);
    }

    /** The store into the last pointer block on the way. */
    method StoreLast(inode: Inode, ghost q: Pos, tmp: u32, x: nat, ret: array<byte>, diskBlock: u32)
      requires IsPos(sh, q) && IsLeaf(q) && q.digits != [] && x == LastDigit(q) < sh.p && q.ino < WORD_LIMIT
      requires Opened(inode, Parent(q), tmp, ret)
      modifies dev.sectors, ret
      ensures Stored(old(Volume()), old(Now(inode, q.ino)), inode, q, diskBlock)
    {
      ghost var v3, i3 := Volume(), Now(inode, q.ino);
      ParentChild(q);
      Radix(geo, sh, v3, i3);
      InnerIs(v3, i3, q, diskBlock, tmp);
      assert Reachable(v3.disk, i3, q);
      StoreInBlock(inode, Parent(q), tmp, x, ret, diskBlock);
      assert StoredIs(geo, sh, v3, i3, Volume(), inode.raw, q, diskBlock, 0);
    }

    /** The indirect cases of set_disk_block_number. */
    method StoreIndirect(inode: Inode, inoIdx: u32, route: Route, diskBlock: u32)
      returns (done: bool, ghost v3: Vol, ghost i3: Inodes)
      requires Working(inode, inoIdx) && RouteValid(sh.p, route) && !route.Direct?
      modifies dev.sectors, bgds, inode
      ensures done <==> RoomAbove(old(Volume()), old(Now(inode, inoIdx)), RoutePos(inoIdx, route))
      ensures done ==> Grown(geo, sh, old(Volume()), old(Now(inode, inoIdx)), v3, i3, inoIdx,
                             Above(RoutePos(inoIdx, route)))
      ensures done ==> Stored(v3, i3, inode, RoutePos(inoIdx, route), diskBlock)
      ensures !done ==> Lost(inode, inoIdx) && (old(Synced(inode, inoIdx)) ==> Synced(inode, inoIdx))
    {
      ghost var q := RoutePos(inoIdx, route);
      Radix(geo, sh, Volume(), Now(inode, inoIdx));
      var ret := new byte[geo.bs];
      var tmp, x;
      tmp, x, done := OpenLast(inode, inoIdx, route, ret);
      v3, i3 := Volume(), Now(inode, inoIdx);
      if done {
        RouteIsPos(sh, inoIdx, route);
        StoreLast(inode, q, tmp, x, ret, diskBlock);
      }
    }

    /** The whole of set_disk_block_number but its last line. */
    method StorePointer(inode: Inode, inoIdx: u32, route: Route, diskBlock: u32)
      returns (done: bool, ghost v3: Vol, ghost i3: Inodes)
      requires Working(inode, inoIdx) && RouteValid(sh.p, route)
      modifies dev.sectors, bgds, inode
      ensures done <==> RoomAbove(old(Volume()), old(Now(inode, inoIdx)), RoutePos(inoIdx, route))
      ensures done ==> Grown(geo, sh, old(Volume()), old(Now(inode, inoIdx)), v3, i3, inoIdx,
                             Above(RoutePos(inoIdx, route)))
      ensures done ==> Stored(v3, i3, inode, RoutePos(inoIdx, route), diskBlock)
      ensures !done ==> Lost(inode, inoIdx) && (old(Synced(inode, inoIdx)) ==> Synced(inode, inoIdx))
    {
      if route.Direct? {
        v3, i3 := Volume(), Now(inode, inoIdx);
        GrownNothing(geo, sh, v3, i3, inoIdx, {});
        StoreDirect(inode, inoIdx, route.slot, diskBlock);
        done := true;
      } else {
        done, v3, i3 := StoreIndirect(inode, inoIdx, route, diskBlock);
      }
    }

    /** set_disk_block_number. It goes through exactly if there is a free block for each missing pointer block; if
        not, it stops at block -1. */
    method SetDiskBlockNumber(inode: Inode, inoIdx: u32, inodeBlock: u32, diskBlock: u32) returns (done: bool)
      requires Working(inode, inoIdx) && inodeBlock < MaxBlocks(sh.p)
      modifies dev.sectors, bgds, inode
      ensures done <==> RoomAbove(old(Volume()), old(Now(inode, inoIdx)), PathOf(sh.p, inoIdx, inodeBlock))
      ensures done ==> PointerSet(geo, sh, old(Volume()), old(Now(inode, inoIdx)), Volume(), Now(inode, inoIdx),
                                  PathOf(sh.p, inoIdx, inodeBlock), diskBlock)
      ensures done ==> Laid(inode, inoIdx) && Synced(inode, inoIdx)
      ensures !done ==> Lost(inode, inoIdx) && (old(Synced(inode, inoIdx)) ==> Synced(inode, inoIdx))
    {
      ghost var v, inodes := Volume(), Now(inode, inoIdx);
      ghost var q := PathOf(sh.p, inoIdx, inodeBlock);
      PathIndex(sh, inoIdx, inodeBlock);
      Radix(geo, sh, v, inodes);
      var route := FindRoute(geo.bs, inoIdx, inodeBlock);
      ghost var v3, i3;
      done, v3, i3 := StorePointer(inode, inoIdx, route, diskBlock);
      if done {
        SetRound(geo, sh, v, inodes, v3, i3, Volume(), inode.raw, q, diskBlock);
        WriteInodeMetadata(inode, inoIdx);
      }
    }

    /** The end of alloc_inode_block: num_sectors is updated and the inode written once more. (v, i) is the state
        before the call. */
    method CountSectors(inode: Inode, inoIdx: u32, inoBlock: u32, ghost v: Vol, ghost i: Inodes, ghost q: Pos,
                        ghost d: u32)
      requires Laid(inode, inoIdx) && q.ino == inoIdx && inoIdx as nat in i
               && PointersApart(sh, DiskNow(), Now(inode, inoIdx))
      requires Alloced(geo, sh, v, i, Volume(), Now(inode, inoIdx), q, d) && IsPos(sh, q)
      modifies dev.sectors, inode
      ensures Alloced(geo, sh, v, i, Volume(), Now(inode, inoIdx), q, d)
      ensures Laid(inode, inoIdx) && Synced(inode, inoIdx)
    {
      ghost var v2, i2 := Volume(), Now(inode, inoIdx);
      LayoutRadix(geo, sh, |DiskNow()|, bgds[..]);
      var sectors := Add32(Word(inode.raw, SECTORS_WORD), Mul32(Add32(inoBlock, 1), geo.bs / 512));
      AllocedTouch(geo, sh, v, i, v2, i2, q, d, sectors);
      inode.raw := SetWord(inode.raw, SECTORS_WORD, sectors);
      WriteInodeMetadata(inode, inoIdx);
      UpdateTwice(TableInodes(geo, sh, v2), inoIdx, inode.raw, inode.raw);
      UpdateTwice(TableInodes(geo, sh, v2), inoIdx, i2[inoIdx as nat], inode.raw);
    }

    /** alloc_inode_block. With a free block for the inode block and each missing pointer block on its way it gets a
        block of its own; otherwise the volume is lost: either the -1 of ext2_alloc_block ends up as the inode block,
        or the driver already stops at block -1 in the middle. */
    method AllocInodeBlock(inode: Inode, inoIdx: u32, inoBlock: u32) returns (done: bool, ghost d: u32)
      requires Working(inode, inoIdx) && inoBlock < MaxBlocks(sh.p)
      requires At(DiskNow(), Now(inode, inoIdx), PathOf(sh.p, inoIdx, inoBlock)) == 0
      modifies dev.sectors, bgds, inode
      ensures done <==> RoomWay(old(Volume()), old(Now(inode, inoIdx)), PathOf(sh.p, inoIdx, inoBlock))
                        || (old(FreeCount(bgds[..])) == 0
                            && RoomAbove(old(Volume()), old(Now(inode, inoIdx)), PathOf(sh.p, inoIdx, inoBlock)))
      ensures done ==> Alloced(geo, sh, old(Volume()), old(Now(inode, inoIdx)), Volume(), Now(inode, inoIdx),
                               PathOf(sh.p, inoIdx, inoBlock), d)
      ensures Laid(inode, inoIdx) && (done ==> Synced(inode, inoIdx))
      ensures !RoomWay(old(Volume()), old(Now(inode, inoIdx)), PathOf(sh.p, inoIdx, inoBlock)) ==> Lost(inode, inoIdx)
      ensures old(Synced(inode, inoIdx)) ==> Synced(inode, inoIdx)
    {
      ghost var v, i := Volume(), Now(inode, inoIdx);
      ghost var q := PathOf(sh.p, inoIdx, inoBlock);
      PathIndex(sh, inoIdx, inoBlock);
      var ret := NewBlock(inode, inoIdx);
      ghost var v1 := Volume();
      WayRoom(geo, sh, v, i, v1, q, ret);
      done := SetDiskBlockNumber(inode, inoIdx, inoBlock, ret);
      d := ret;
      if done {
        AllocOutcome(geo, sh, v, i, v1, Volume(), Now(inode, inoIdx), q, ret);
        CountSectors(inode, inoIdx, inoBlock, v, i, q, ret);
        AllocedLost(inode, inoIdx, v, i, q, ret);
      } else {
        LostMeans(inode, inoIdx);
      }
    }

    lemma AllocedLost(inode: Inode, ino: nat, v: Vol, i: Inodes, q: Pos, d: u32)
      requires Alloced(geo, sh, v, i, Volume(), Now(inode, ino), q, d) && IsPos(sh, q) && Laid(inode, ino)
      ensures !RoomWay(v, i, q) ==> Lost(inode, ino)
    {
      AllocedMeans(geo, sh, v, i, Volume(), Now(inode, ino), q, d);
      if !RoomWay(v, i, q) {
        Ruined(geo, sh, Volume(), Now(inode, ino), q);
        assert LostIs(inode, ino, 0);
      }
    }

    /** After alloc_inode_block the inode block can be looked up. */
    lemma AllocedProvisioned(inode: Inode, ino: nat, v: Vol, i: Inodes, b: nat, d: u32)
      requires sh.p > 0 && b < MaxBlocks(sh.p) && Laid(inode, ino)
      requires Alloced(geo, sh, v, i, Volume(), Now(inode, ino), PathOf(sh.p, ino, b), d)
      ensures Provisioned(inode, ino, b, RoomWay(v, i, PathOf(sh.p, ino, b)), true)
    {
      var q, room := PathOf(sh.p, ino, b), RoomWay(v, i, PathOf(sh.p, ino, b));
      PathIndex(sh, ino, b);
      AllocedMeans(geo, sh, v, i, Volume(), Now(inode, ino), q, d);
      AllocedLost(inode, ino, v, i, q, d);
      LayoutRadix(geo, sh, |DiskNow()|, bgds[..]);
      BlockNumberSmall(geo.bs, |DiskNow()|);
      if room {
        GoodReadable(inode, ino, b);
        assert MappedIs(geo, sh, v, i, Volume(), Now(inode, ino), q, d, |Lacking(v.disk, i, Way(q))|, 0);
      } else {
        assert ReadableIs(inode, ino, b, 0);
      }
      assert ProvisionedIs(inode, ino, b, room, true, 0);
    }

    // ---- file data -------------------------------------------------------------------------------

    /** ext2_read_inode_block */
    method ReadInodeBlock(inode: Inode, ghost ino: nat, inodeBlock: u32, buff: array<byte>) returns (done: bool)
      requires Readable(inode, ino, inodeBlock) && sh.p > 0 && inodeBlock < MaxBlocks(sh.p) && buff.Length == geo.bs
      modifies buff
      ensures Volume() == old(Volume())
      ensures done <==> At(DiskNow(), Now(inode, ino), PathOf(sh.p, ino, inodeBlock)) < |DiskNow()|
      ensures done ==> buff[..] == Content(DiskNow(), Now(inode, ino), PathOf(sh.p, ino, inodeBlock))
    {
      ReadableMeans(inode, ino, inodeBlock);
      LayoutRadix(geo, sh, |DiskNow()|, bgds[..]);
      var block := GetDiskBlockNumber(inode, ino, inodeBlock);
      done := Reaches(block);
      if done {
        ReadBlock(block, buff);
      }
    }

    /** ext2_write_inode_block */
    method WriteInodeBlock(inode: Inode, ghost ino: nat, inodeBlock: u32, buff: seq<byte>)
      requires Readable(inode, ino, inodeBlock) && sh.p > 0 && inodeBlock < MaxBlocks(sh.p) && |buff| == geo.bs
      requires At(DiskNow(), Now(inode, ino), PathOf(sh.p, ino, inodeBlock)) < |DiskNow()|
      modifies dev.sectors
      ensures Volume() == old(Volume()).(disk :=
                old(DiskNow())[At(old(DiskNow()), old(Now(inode, ino)), PathOf(sh.p, ino, inodeBlock)) := buff])
    {
      ReadableMeans(inode, ino, inodeBlock);
      LayoutRadix(geo, sh, |DiskNow()|, bgds[..]);
      var block := GetDiskBlockNumber(inode, ino, inodeBlock);
      WriteBlock(block, buff);
    }

    /** Reading an inode block of a sound volume. */
    method FetchBlock(inode: Inode, ghost ino: nat, inodeBlock: u32) returns (buff: array<byte>)
      requires Working(inode, ino) && inodeBlock < MaxBlocks(sh.p)
      ensures fresh(buff) && buff.Length == geo.bs && Volume() == old(Volume())
      ensures buff[..] == Content(DiskNow(), Now(inode, ino), PathOf(sh.p, ino, inodeBlock))
    {
      Radix(geo, sh, Volume(), Now(inode, ino));
      GoodReadable(inode, ino, inodeBlock);
      buff := new byte[geo.bs];
      var _ := ReadInodeBlock(inode, ino, inodeBlock, buff);
    }

    /** The second half of a round of ext2_write_inode_filedata: the block read is patched and written back. */
    method PatchBlock(inode: Inode, ghost ino: nat, i: u32, offset: u32, buf: seq<byte>, currOff: nat,
                      bufBlock: array<byte>, ghost base: nat) returns (n: u32)
      requires Suited(geo, sh) && Readable(inode, ino, i) && i < MaxBlocks(sh.p) && offset + |buf| < WORD_LIMIT
      requires At(DiskNow(), Now(inode, ino), PathOf(sh.p, ino, i)) < |DiskNow()|
      requires BlockNo(geo.bs, offset) <= i <= BlockNo(geo.bs, offset + |buf|)
      requires bufBlock.Length == geo.bs && bufBlock[..] == Content(DiskNow(), Now(inode, ino), PathOf(sh.p, ino, i))
      requires base == BlockByte(geo.bs, i) && offset + currOff == Max(offset, Min(base, offset + |buf|))
      modifies dev.sectors, bufBlock
      ensures BlockPatched(geo, sh, old(Volume()), old(Now(inode, ino)), Volume(), PathOf(sh.p, ino, i), i, offset, buf)
      ensures offset + currOff + n == Max(offset, Min(base + geo.bs, offset + |buf|))
    {
      var left;
      left, n := FilePiece(geo.bs, offset, offset + |buf|, i, base);
      PatchSplice(bufBlock[..], base, offset, buf, left, n, currOff);
      Memcpy(bufBlock, left, buf[currOff..currOff + n]);
      WriteInodeBlock(inode, ino, i, bufBlock[..]);
    }

    ghost predicate ProvisionedIs(inode: Inode, ino: nat, i: nat, room: bool, done: bool, k: nat)
      reads dev.sectors, bgds, inode
    {
      && (done ==> Readable(inode, ino, i)) && sh.p > 0 && i < MaxBlocks(sh.p)
      && (if room then done && 0 < At(DiskNow(), Now(inode, ino), PathOf(sh.p, ino, i)) < |DiskNow()|
          else Lost(inode, ino) && (done ==> At(DiskNow(), Now(inode, ino), PathOf(sh.p, ino, i)) >= |DiskNow()|))
    }

    /** Inode block `i` has been provided; without room for it the volume is lost, and block -1 may be in its place. */
    ghost predicate Provisioned(inode: Inode, ino: nat, i: nat, room: bool, done: bool)
      reads dev.sectors, bgds, inode
    {
      (if forall k: nat :: ProvisionedIs(inode, ino, i, room, done, k) then Clean else Corrupt).Clean?
    }

    lemma ProvisionedMeans(inode: Inode, ino: nat, i: nat, room: bool, done: bool)
      requires Provisioned(inode, ino, i, room, done)
      ensures ProvisionedIs(inode, ino, i, room, done, 0)
    {
    }

    /** Inode block `i`, if it is missing, is allocated. */
    method ProvideBlock(inode: Inode, inoIdx: u32, i: u32, ghost offset: nat, ghost buf: seq<byte>, ghost start: nat,
                        ghost v: Vol, ghost inodes: Inodes, ghost room: bool) returns (done: bool)
      requires Working(inode, inoIdx) && Synced(inode, inoIdx) && i < MaxBlocks(sh.p) && start <= i
      requires room == RoomWay(Volume(), Now(inode, inoIdx), PathOf(sh.p, inoIdx, i))
      requires Patched(geo, sh, v, inodes, Volume(), Now(inode, inoIdx), inoIdx, offset, buf, start, i, i)
      modifies dev.sectors, bgds, inode
      ensures Laid(inode, inoIdx) && Synced(inode, inoIdx) && Provisioned(inode, inoIdx, i, room, done)
      ensures room ==> Patched(geo, sh, v, inodes, Volume(), Now(inode, inoIdx), inoIdx, offset, buf, start, i, i + 1)
    {
      ghost var v1, i1 := Volume(), Now(inode, inoIdx);
      Radix(geo, sh, v1, i1);
      GoodLayout(geo, sh, v1, i1);
      GoodWalk(inode, inoIdx, i);
      var test := GetDiskBlockNumber(inode, inoIdx, i);
      done := true;
      if test == 0 {
        ghost var d;
        done, d := AllocInodeBlock(inode, inoIdx, i);
        if done {
          AllocedProvisioned(inode, inoIdx, v1, i1, i, d);
        }
        if room {
          PatchedAlloced(geo, sh, v, inodes, v1, i1, Volume(), Now(inode, inoIdx), inoIdx, offset, buf, start, i, d);
        }
      } else {
        PatchedMore(geo, sh, v, inodes, v1, i1, inoIdx, offset, buf, start, i);
        GoodReadable(inode, inoIdx, i);
      }
    }

    /** The first half of a round of ext2_write_inode_filedata: the block is provided and read. Without room the
        driver stops at block -1, no later than at this read. */
    method OpenBlock(inode: Inode, inoIdx: u32, i: u32, bufBlock: array<byte>, ghost offset: nat, ghost buf: seq<byte>,
                     ghost start: nat, ghost v: Vol, ghost inodes: Inodes, ghost room: bool) returns (done: bool)
      requires Working(inode, inoIdx) && Synced(inode, inoIdx) && i < MaxBlocks(sh.p) && start <= i
               && bufBlock.Length == geo.bs
      requires room == RoomWay(Volume(), Now(inode, inoIdx), PathOf(sh.p, inoIdx, i))
      requires Patched(geo, sh, v, inodes, Volume(), Now(inode, inoIdx), inoIdx, offset, buf, start, i, i)
      modifies dev.sectors, bgds, inode, bufBlock
      ensures done <==> room
      ensures Settled(inode, inoIdx, done) && Provisioned(inode, inoIdx, i, room, done)
      ensures done ==> Patched(geo, sh, v, inodes, Volume(), Now(inode, inoIdx), inoIdx, offset, buf, start, i, i + 1)
      ensures done ==> bufBlock[..] == Content(DiskNow(), Now(inode, inoIdx), PathOf(sh.p, inoIdx, i))
    {
      done := ProvideBlock(inode, inoIdx, i, offset, buf, start, v, inodes, room);
      ProvisionedMeans(inode, inoIdx, i, room, done);
      if done {
        done := ReadInodeBlock(inode, inoIdx, i, bufBlock);
      }
    }

    /** The second half on a block that exists. */
    method FinishBlock(inode: Inode, inoIdx: u32, i: u32, offset: u32, buf: seq<byte>, currOff: nat,
                       bufBlock: array<byte>, ghost base: nat, ghost start: nat, ghost v: Vol, ghost inodes: Inodes)
      returns (n: u32)
      requires Laid(inode, inoIdx) && Synced(inode, inoIdx) && i < MaxBlocks(sh.p)
      requires offset + |buf| < WORD_LIMIT && start == BlockNo(geo.bs, offset)
               && start <= i <= BlockNo(geo.bs, offset + |buf|)
      requires base == BlockByte(geo.bs, i) && offset + currOff == Max(offset, Min(base, offset + |buf|))
      requires Patched(geo, sh, v, inodes, Volume(), Now(inode, inoIdx), inoIdx, offset, buf, start, i, i + 1)
      requires Provisioned(inode, inoIdx, i, true, true)
      requires bufBlock.Length == geo.bs
               && bufBlock[..] == Content(DiskNow(), Now(inode, inoIdx), PathOf(sh.p, inoIdx, i))
      modifies dev.sectors, bufBlock
      ensures Patched(geo, sh, v, inodes, Volume(), Now(inode, inoIdx), inoIdx, offset, buf, start, i + 1, i + 1)
      ensures offset + currOff + n == Max(offset, Min(base + geo.bs, offset + |buf|))
      ensures Settled(inode, inoIdx, true)
    {
      ghost var v2, i2 := Volume(), Now(inode, inoIdx);
      ProvisionedMeans(inode, inoIdx, i, true, true);
      PatchedGood(geo, sh, v, inodes, v2, i2, inoIdx, offset, buf, start, i, i + 1);
      n := PatchBlock(inode, inoIdx, i, offset, buf, currOff, bufBlock, base);
      PatchedData(geo, sh, v, inodes, v2, i2, Volume(), inoIdx, offset, buf, start, i);
      PatchedGood(geo, sh, v, inodes, Volume(), Now(inode, inoIdx), inoIdx, offset, buf, start, i + 1, i + 1);
      GoodLayout(geo, sh, Volume(), Now(inode, inoIdx));
    }

    /** One round of ext2_write_inode_filedata. */
    method WriteOneBlock(inode: Inode, inoIdx: u32, i: u32, offset: u32, buf: seq<byte>, currOff: nat,
                         ghost base: nat, ghost start: nat, ghost v: Vol, ghost inodes: Inodes)
      returns (n: u32, done: bool)
      requires Working(inode, inoIdx) && Synced(inode, inoIdx) && i < MaxBlocks(sh.p)
      requires offset + |buf| < WORD_LIMIT && start == BlockNo(geo.bs, offset)
               && start <= i <= BlockNo(geo.bs, offset + |buf|)
      requires base == BlockByte(geo.bs, i) && offset + currOff == Max(offset, Min(base, offset + |buf|))
      requires Patched(geo, sh, v, inodes, Volume(), Now(inode, inoIdx), inoIdx, offset, buf, start, i, i)
      modifies dev.sectors, bgds, inode
      ensures done <==> RoomWay(old(Volume()), old(Now(inode, inoIdx)), PathOf(sh.p, inoIdx, i))
      ensures done ==> Patched(geo, sh, v, inodes, Volume(), Now(inode, inoIdx), inoIdx, offset, buf, start, i + 1,
                               i + 1)
      ensures done ==> offset + currOff + n == Max(offset, Min(base + geo.bs, offset + |buf|))
      ensures Settled(inode, inoIdx, done)
    {
      n := 0;
      var bufBlock := new byte[geo.bs];
      ghost var room := RoomWay(Volume(), Now(inode, inoIdx), PathOf(sh.p, inoIdx, i));
      done := OpenBlock(inode, inoIdx, i, bufBlock, offset, buf, start, v, inodes, room);
      if done {
        SettledMeans(inode, inoIdx, true);
        n := FinishBlock(inode, inoIdx, i, offset, buf, currOff, bufBlock, base, start, v, inodes);
      }
    }

    ghost predicate ProgressIs(inode: Inode, ino: nat, v: Vol, inodes: Inodes, offset: nat, buf: seq<byte>, start: nat,
                               end: nat, i: nat, base: nat, currOff: nat, done: bool, k: nat)
      reads dev.sectors, bgds, inode
    {
      && start <= i <= end + 1 && base == BlockByte(geo.bs, i) && Settled(inode, ino, done)
      && (if done
          then offset + currOff == Max(offset, Min(base, offset + |buf|))
               && Patched(geo, sh, v, inodes, Volume(), Now(inode, ino), ino, offset, buf, start, i, i)
          else !RoomBlocks(sh, v, inodes, ino, start, end + 1))
    }

    /** The write loop stands before inode block `i`, with `currOff` bytes written; it has stopped if not `done`. */
    ghost predicate Progress(inode: Inode, ino: nat, v: Vol, inodes: Inodes, offset: nat, buf: seq<byte>, start: nat,
                             end: nat, i: nat, base: nat, currOff: nat, done: bool)
      reads dev.sectors, bgds, inode
    {
      (if forall k: nat  ::
         ProgressIs(inode, ino, v, inodes, offset, buf, start, end, i, base, currOff, done, k)
       then Clean else Corrupt).Clean?
    }

    lemma ProgressMeans(inode: Inode, ino: nat, v: Vol, inodes: Inodes, offset: nat, buf: seq<byte>, start: nat,
                        end: nat, i: nat, base: nat, currOff: nat, done: bool)
      requires Progress(inode, ino, v, inodes, offset, buf, start, end, i, base, currOff, done)
      ensures ProgressIs(inode, ino, v, inodes, offset, buf, start, end, i, base, currOff, done, 0)
    {
    }

    lemma ProgressStart(inode: Inode, ino: nat, offset: nat, buf: seq<byte>, start: nat, end: nat, base: nat)
      requires Working(inode, ino) && Synced(inode, ino) && Spans(geo.bs, sh.p, offset, |buf|, start, end, base)
      ensures Progress(inode, ino, Volume(), Now(inode, ino), offset, buf, start, end, start, base, 0, true)
      ensures start <= end < WORD_LIMIT
    {
      SpansMeans(geo.bs, sh.p, offset, |buf|, start, end, base);
      PatchedStart(geo, sh, Volume(), Now(inode, ino), ino, offset, buf, start);
      GoodLayout(geo, sh, Volume(), Now(inode, ino));
    }

    lemma ProgressEnd(inode: Inode, ino: nat, v: Vol, inodes: Inodes, offset: nat, buf: seq<byte>, start: nat, end: nat,
                      i: nat, base: nat, currOff: nat, done: bool)
      requires Progress(inode, ino, v, inodes, offset, buf, start, end, i, base, currOff, done)
               && (done ==> i == end + 1)
      ensures done <==> RoomBlocks(sh, v, inodes, ino, start, end + 1)
      ensures done ==> Patched(geo, sh, v, inodes, Volume(), Now(inode, ino), ino, offset, buf, start, end + 1, end + 1)
      ensures Settled(inode, ino, done)
    {
      ProgressMeans(inode, ino, v, inodes, offset, buf, start, end, i, base, currOff, done);
      if done {
        PatchedGood(geo, sh, v, inodes, Volume(), Now(inode, ino), ino, offset, buf, start, i, i);
      }
    }

    /** What a round starts from. */
    lemma ProgressOpen(inode: Inode, ino: nat, v: Vol, inodes: Inodes, offset: nat, buf: seq<byte>, start: nat,
                       end: nat, base0: nat, i: nat, base: nat, currOff: nat)
      requires Progress(inode, ino, v, inodes, offset, buf, start, end, i, base, currOff, true) && i <= end
      requires offset + |buf| < WORD_LIMIT && Spans(geo.bs, sh.p, offset, |buf|, start, end, base0)
      ensures Working(inode, ino) && Synced(inode, ino) && i < MaxBlocks(sh.p) && start == BlockNo(geo.bs, offset)
      ensures start <= i <= BlockNo(geo.bs, offset + |buf|) && base == BlockByte(geo.bs, i)
      ensures offset + currOff == Max(offset, Min(base, offset + |buf|)) && base + geo.bs == BlockByte(geo.bs, i + 1)
      ensures Patched(geo, sh, v, inodes, Volume(), Now(inode, ino), ino, offset, buf, start, i, i)
      ensures RoomBlocks(sh, v, inodes, ino, start, end + 1) ==>
        RoomWay(Volume(), Now(inode, ino), PathOf(sh.p, ino, i))
    {
      ghost var v1, i1 := Volume(), Now(inode, ino);
      ProgressMeans(inode, ino, v, inodes, offset, buf, start, end, i, base, currOff, true);
      SpansMeans(geo.bs, sh.p, offset, |buf|, start, end, base0);
      PatchedGood(geo, sh, v, inodes, v1, i1, ino, offset, buf, start, i, i);
      SettledMeans(inode, ino, true);
      PatchedRoom(geo, sh, v, inodes, v1, i1, ino, offset, buf, start, i, end + 1);
      BlockNext(geo.bs, i);
    }

    /** A round takes the loop one block further or stops it. */
    method PatchNext(inode: Inode, inoIdx: u32, offset: u32, buff: seq<byte>, i: u32, currOff: nat,
                     ghost startBlock: nat, ghost endBlock: nat, ghost base0: nat, ghost base: nat, ghost v: Vol,
                       ghost inodes: Inodes)
      returns (n: u32, done: bool)
      requires offset + |buff| < WORD_LIMIT && Spans(geo.bs, sh.p, offset, |buff|, startBlock, endBlock, base0)
               && i <= endBlock
      requires Progress(inode, inoIdx, v, inodes, offset, buff, startBlock, endBlock, i, base, currOff, true)
      modifies dev.sectors, bgds, inode
      ensures Progress(inode, inoIdx, v, inodes, offset, buff, startBlock, endBlock, i + 1, base + geo.bs, currOff + n,
                       done)
    {
      ProgressOpen(inode, inoIdx, v, inodes, offset, buff, startBlock, endBlock, base0, i, base, currOff);
      n, done := WriteOneBlock(inode, inoIdx, i, offset, buff, currOff, base, startBlock, v, inodes);
    }

    /** The loop of ext2_write_inode_filedata. */
    method PatchRange(inode: Inode, inoIdx: u32, offset: u32, buff: seq<byte>, startBlock: nat, endBlock: nat,
                      ghost base0: nat)
      returns (done: bool)
      requires Working(inode, inoIdx) && Synced(inode, inoIdx) && offset + |buff| < WORD_LIMIT
      requires Spans(geo.bs, sh.p, offset, |buff|, startBlock, endBlock, base0)
      modifies dev.sectors, bgds, inode
      ensures done <==> RoomBlocks(sh, old(Volume()), old(Now(inode, inoIdx)), inoIdx, startBlock, endBlock + 1)
      ensures done ==> Patched(geo, sh, old(Volume()), old(Now(inode, inoIdx)), Volume(), Now(inode, inoIdx), inoIdx,
                               offset, buff, startBlock, endBlock + 1, endBlock + 1)
      ensures Settled(inode, inoIdx, done)
    {
      ghost var v, inodes := Volume(), Now(inode, inoIdx);
      ghost var base: nat := base0;
      var i := startBlock;
      var currOff: nat := 0;
      done := true;
      ProgressStart(inode, inoIdx, offset, buff, startBlock, endBlock, base0);
      while done && i <= endBlock
        invariant startBlock <= i <= endBlock + 1
        invariant Progress(inode, inoIdx, v, inodes, offset, buff, startBlock, endBlock, i, base, currOff, done)
        decreases endBlock - i, done
      {
        var n;
        n, done := PatchNext(inode, inoIdx, offset, buff, i, currOff, startBlock, endBlock, base0, base, v, inodes);
        currOff := currOff + n;
        i := i + 1;
        base := base + geo.bs;
      }
      ProgressEnd(inode, inoIdx, v, inodes, offset, buff, startBlock, endBlock, i, base, currOff, done);
    }

    /** ext2_write_inode_filedata once the size is settled: (v, i0) is the state before that. */
    method WriteSized(inode: Inode, inoIdx: u32, offset: u32, buff: seq<byte>, endBytes: u32, ghost v: Vol,
                      ghost i0: Inodes, ghost size: nat) returns (done: bool)
      requires Working(inode, inoIdx) && Synced(inode, inoIdx) && endBytes == offset + |buff|
      requires inoIdx as nat in i0 && size == Max(FileSize(i0[inoIdx as nat]), offset + |buff|)
      requires SizeSet(geo, sh, v, i0, Volume(), Now(inode, inoIdx), inoIdx, size)
      modifies dev.sectors, bgds, inode
      ensures done <==> RoomRange(geo, sh, v, i0, inoIdx, offset, |buff|)
      ensures done ==> Written(geo, sh, v, i0, Volume(), Now(inode, inoIdx), inoIdx, offset, buff)
      ensures Settled(inode, inoIdx, done)
    {
      ghost var v1, i1 := Volume(), Now(inode, inoIdx);
      Radix(geo, sh, v1, i1);
      SizeSetRoom(geo, sh, v, i0, v1, i1, inoIdx, size, offset, |buff|);
      var startBlock, endBlock, base := BlockRange(geo.bs, offset, endBytes, |buff|);
      RoomRangeIs(geo, sh, v1, i1, inoIdx, offset, |buff|, startBlock, endBlock, base);
      done := PatchRange(inode, inoIdx, offset, buff, startBlock, endBlock, base);
      if done {
        WriteDone(geo, sh, v, i0, v1, i1, Volume(), Now(inode, inoIdx), inoIdx, offset, buff, startBlock, endBlock,
                  base, size);
      }
    }

    /** ext2_write_inode_filedata. It succeeds exactly if there is a free block for every block of the range, inode
        block or pointer block, that is missing; if not, the volume is not sound afterwards. */
    method WriteInodeFiledata(inode: Inode, inoIdx: u32, offset: u32, size: u32, buff: seq<byte>) returns (done: bool)
      requires Working(inode, inoIdx) && Synced(inode, inoIdx) && offset + size < WORD_LIMIT && |buff| == size
      modifies dev.sectors, bgds, inode
      ensures done <==> RoomRange(geo, sh, old(Volume()), old(Now(inode, inoIdx)), inoIdx, offset, size)
      ensures done ==> Written(geo, sh, old(Volume()), old(Now(inode, inoIdx)), Volume(), Now(inode, inoIdx), inoIdx,
                               offset, buff)
      ensures Settled(inode, inoIdx, done)
    {
      ghost var v, i0 := Volume(), Now(inode, inoIdx);
      GrowSize(inode, inoIdx, offset, size);
      var endBytes := Min(Add32(offset, size), FileSize(inode.raw));
      done := WriteSized(inode, inoIdx, offset, buff, endBytes, v, i0, Max(old(FileSize(inode.raw)), offset + size));
    }

    method StoreSize(inode: Inode, inoIdx: u32, size: u32)
      requires Working(inode, inoIdx) && Synced(inode, inoIdx)
      modifies dev.sectors, inode
      ensures Working(inode, inoIdx) && Synced(inode, inoIdx) && FileSize(inode.raw) == size
      ensures SizeSet(geo, sh, old(Volume()), old(Now(inode, inoIdx)), Volume(), Now(inode, inoIdx), inoIdx, size)
    {
      ghost var v, i0 := Volume(), Now(inode, inoIdx);
      GoodLayout(geo, sh, v, i0);
      SizeRound(geo, sh, v, i0, inoIdx, size);
      inode.raw := SetWord(inode.raw, SIZE_WORD, size);
      WriteInodeMetadata(inode, inoIdx);
      UpdateTwice(TableInodes(geo, sh, v), inoIdx, inode.raw, inode.raw);
    }

    /** The first lines of ext2_write_inode_filedata: a write beyond the end moves the end. */
    method GrowSize(inode: Inode, inoIdx: u32, offset: u32, size: u32)
      requires Working(inode, inoIdx) && Synced(inode, inoIdx) && offset + size < WORD_LIMIT
      modifies dev.sectors, inode
      ensures Working(inode, inoIdx) && Synced(inode, inoIdx)
      ensures SizeSet(geo, sh, old(Volume()), old(Now(inode, inoIdx)), Volume(), Now(inode, inoIdx), inoIdx,
                      Max(old(FileSize(inode.raw)), offset + size))
      ensures FileSize(inode.raw) == Max(old(FileSize(inode.raw)), offset + size)
    {
      ghost var v, i0 := Volume(), Now(inode, inoIdx);
      GoodLayout(geo, sh, v, i0);
      if Add32(offset, size) > FileSize(inode.raw) {
        StoreSize(inode, inoIdx, Add32(offset, size));
      } else {
        SizeKept(geo, sh, v, i0, inoIdx);
      }
    }

    /** One round of ext2_read_inode_filedata. */
    method FetchOneBlock(inode: Inode, ghost ino: nat, i: u32, offset: u32, endBytes: u32, buff: array<byte>,
                         currOff: nat, ghost base: nat, ghost was: seq<byte>) returns (n: u32)
      requires Working(inode, ino) && i < MaxBlocks(sh.p) && offset <= endBytes && endBytes - offset <= buff.Length
      requires BlockNo(geo.bs, offset) <= i <= BlockNo(geo.bs, endBytes) && base == BlockByte(geo.bs, i)
      requires offset + currOff == Max(offset, Min(base, endBytes))
      requires Fetched(geo, sh, Volume(), Now(inode, ino), ino, offset, currOff, was, buff[..])
      modifies buff
      ensures Volume() == old(Volume())
      ensures Fetched(geo, sh, Volume(), Now(inode, ino), ino, offset, currOff + n, was, buff[..])
      ensures offset + currOff + n == Max(offset, Min(base + geo.bs, endBytes))
    {
      ghost var v, inodes, now := Volume(), Now(inode, ino), buff[..];
      Radix(geo, sh, v, inodes);
      var left;
      left, n := FilePiece(geo.bs, offset, endBytes, i, base);
      var bufBlock := FetchBlock(inode, ino, i);
      FetchedNext(geo, sh, v, inodes, ino, offset, currOff, was, now, i, left, n, bufBlock[..]);
      Memcpy(buff, currOff, bufBlock[left..left + n]);
    }

    /** The loop of ext2_read_inode_filedata. */
    method FetchRange(inode: Inode, ghost ino: nat, offset: u32, endBytes: u32, buff: array<byte>)
      requires Working(inode, ino) && offset <= endBytes && endBytes - offset <= buff.Length
      modifies buff
      ensures Volume() == old(Volume())
      ensures Fetched(geo, sh, Volume(), Now(inode, ino), ino, offset, endBytes - offset, old(buff[..]), buff[..])
    {
      ghost var v, inodes, was := Volume(), Now(inode, ino), buff[..];
      Radix(geo, sh, v, inodes);
      var startBlock, endBlock, base := BlockRange(geo.bs, offset, endBytes, endBytes - offset);
      SpansMeans(geo.bs, sh.p, offset, endBytes - offset, startBlock, endBlock, base);
      var i := startBlock;
      var currOff: nat := 0;
      while i <= endBlock
        invariant startBlock <= i <= endBlock + 1 && base == BlockByte(geo.bs, i)
        invariant Volume() == v && offset + currOff == Max(offset, Min(base, endBytes))
        invariant Fetched(geo, sh, v, inodes, ino, offset, currOff, was, buff[..])
      {
        var n := FetchOneBlock(inode, ino, i, offset, endBytes, buff, currOff, base, was);
        BlockNext(geo.bs, i);
        currOff := currOff + n;
        i := i + 1;
        base := base + geo.bs;
      }
      LastBlockEnds(geo.bs, endBytes, endBlock);
    }

    /** The loop of ext2_read_inode_filedata for an offset behind the end of the file: it has no round, or one in
        which the length wraps and memcpy runs out of its buffers. */
    method FetchBehind(offset: u32, endBytes: u32) returns (done: bool)
      requires BlockSize(geo.bs) && endBytes < offset
      ensures done <==> BlockNo(geo.bs, offset) > BlockNo(geo.bs, endBytes)
    {
      PieceBehind(geo.bs, offset, endBytes);
      var startBlock, endBlock := BlockNo(geo.bs, offset), BlockNo(geo.bs, endBytes);
      done := true;
      if startBlock <= endBlock {
        done := PieceLeft(geo.bs, offset, startBlock) + PieceLen(geo.bs, offset, endBytes, startBlock) <= geo.bs;
      }
    }

    /** ext2_read_inode_filedata. It comes to its end unless the offset lies behind the end of the file in the file's
        last block. */
    method ReadInodeFiledata(inode: Inode, ghost ino: nat, offset: u32, size: u32, buff: array<byte>)
      returns (count: u32, done: bool)
      requires Working(inode, ino) && offset + size < WORD_LIMIT && size <= buff.Length
      modifies buff
      ensures Volume() == old(Volume())
      ensures done <==> offset <= FileSize(inode.raw) || BlockNo(geo.bs, offset) > BlockNo(geo.bs, FileSize(inode.raw))
      ensures done ==> count == BytesRead(FileSize(inode.raw), offset, size)
      ensures done ==> Fetched(geo, sh, Volume(), Now(inode, ino), ino, offset,
                               Max(0, Min(offset + size, FileSize(inode.raw)) - offset), old(buff[..]), buff[..])
    {
      var endBytes := Min(Add32(offset, size), FileSize(inode.raw));
      done := true;
      if offset <= endBytes {
        FetchRange(inode, ino, offset, endBytes, buff);
      } else {
        done := FetchBehind(offset, endBytes);
      }
      count := Sub32(endBytes, offset);
    }

    /** The inodes as the tables hold them. */
    ghost function Tables(): Inodes
      reads dev.sectors, bgds
    {
      TableInodes(geo, sh, Volume())
    }

    ghost predicate Sound()
      reads dev.sectors, bgds
    {
      Good(geo, sh, Volume(), Tables())
    }

    lemma LostUnsound(inode: Inode, ino: nat)
      requires Settled(inode, ino, false)
      ensures !Sound()
    {
      SettledMeans(inode, ino, false);
      LostMeans(inode, ino);
    }

    /** ext2_read returns the size asked for, not the number of bytes read. */
    method Read(inodeNum: u32, offset: u32, size: u32, buff: array<byte>) returns (ret: u32, done: bool)
      requires Sound() && inodeNum in sh.files && offset + size < WORD_LIMIT && size <= buff.Length
      modifies buff
      ensures Volume() == old(Volume()) && geo.bs > 0
      ensures done <==> offset <= FileSize(Slot(geo, Volume(), inodeNum))
                        || BlockNo(geo.bs, offset) > BlockNo(geo.bs, FileSize(Slot(geo, Volume(), inodeNum)))
      ensures done ==> ret == size
      ensures done ==> Fetched(geo, sh, Volume(), Tables(), inodeNum, offset,
                               Max(0, Min(offset + size, FileSize(Slot(geo, Volume(), inodeNum))) - offset),
                                 old(buff[..]), buff[..])
    {
      GoodLayout(geo, sh, Volume(), Tables());
      var inode := new Inode();
      ReadInodeMetadata(inode, inodeNum);
      UpdateSame(Tables(), inodeNum);
      var count;
      count, done := ReadInodeFiledata(inode, inodeNum, offset, size, buff);
      return size, done;
    }

    /** ext2_write. The volume is sound afterwards exactly if there was a free block for every missing one. */
    method Write(inodeNum: u32, offset: u32, size: u32, buff: seq<byte>) returns (ret: u32, done: bool)
      requires Sound() && inodeNum in sh.files && offset + size < WORD_LIMIT && |buff| == size
      modifies dev.sectors, bgds
      ensures done <==> RoomRange(geo, sh, old(Volume()), old(Tables()), inodeNum, offset, size)
      ensures Sound() <==> done
      ensures done ==>
        Written(geo, sh, old(Volume()), old(Tables()), Volume(), Tables(), inodeNum, offset, buff) && ret == size
    {
      GoodLayout(geo, sh, Volume(), Tables());
      var inode := new Inode();
      ReadInodeMetadata(inode, inodeNum);
      UpdateSame(Tables(), inodeNum);
      done := WriteInodeFiledata(inode, inodeNum, offset, size, buff);
      SettledMeans(inode, inodeNum, done);
      if done {
        WrittenMeans(geo, sh, old(Volume()), old(Tables()), Volume(), Tables(), inodeNum, offset, buff);
      } else {
        LostUnsound(inode, inodeNum);
      }
      return size, done;
    }

    /** Any number of writes to any files, until one finds no block. All go through, and the volume is sound, exactly
        if the free blocks suffice for the blocks that are missing altogether; then every byte is the last one written
        to it, and every file is as long as its furthest write. */
    method WriteAll(writes: seq<FileWrite>) returns (done: bool)
      requires Sound() && InBounds(sh, writes)
      modifies dev.sectors, bgds
      ensures done <==> RoomAll(geo, sh, old(Volume()), old(Tables()), writes)
      ensures Sound() <==> done
      ensures done ==> After(geo, sh, old(Volume()), old(Tables()), Volume(), Tables(), writes)
    {
      ghost var v, inodes := Volume(), Tables();
      var j := 0;
      done := true;
      AfterNothing(geo, sh, v, inodes);
      assert writes[..0] == [];
      while done && j < |writes|
        invariant 0 <= j <= |writes| && (Sound() <==> done)
        invariant done ==> After(geo, sh, v, inodes, Volume(), Tables(), writes[..j])
        invariant !done ==> !RoomAll(geo, sh, v, inodes, writes)
        decreases |writes| - j, done
      {
        done := WriteNext(writes, j, v, inodes);
        j := j + 1;
      }
      assert done ==> writes[..j] == writes;
      if done {
        AfterAll(geo, sh, v, inodes, Volume(), Tables(), writes);
      }
    }

    /** One write of a run. */
    method WriteNext(writes: seq<FileWrite>, j: nat, ghost v: Vol, ghost inodes: Inodes) returns (done: bool)
      requires Sound() && InBounds(sh, writes) && j < |writes|
      requires After(geo, sh, v, inodes, Volume(), Tables(), writes[..j])
      modifies dev.sectors, bgds
      ensures Sound() <==> done
      ensures done ==> After(geo, sh, v, inodes, Volume(), Tables(), writes[..j + 1])
      ensures !done ==> !RoomAll(geo, sh, v, inodes, writes)
    {
      ghost var v1, i1 := Volume(), Tables();
      assert writes[..j] + [writes[j]] == writes[..j + 1];
      var w := writes[j];
      var ret;
      ret, done := Write(w.ino, w.offset, |w.data|, w.data);
      if done {
        AfterWrite(geo, sh, v, inodes, v1, i1, Volume(), Tables(), writes[..j], w);
      } else {
        AfterRoom(geo, sh, v, inodes, v1, i1, writes, j);
      }
    }
  }

  /** start_block and end_block of ext2_read_inode_filedata and ext2_write_inode_filedata. */
  method BlockRange(blockSize: nat, offset: u32, endBytes: u32, ghost size: nat)
    returns (startBlock: nat, endBlock: nat, ghost base: nat)
    requires BlockSize(blockSize) && endBytes == offset + size
    ensures Spans(blockSize, blockSize / 4, offset, size, startBlock, endBlock, base)
  {
    BlockNoIs(blockSize, offset);
    BlockNoIs(blockSize, offset + size);
    startBlock := offset / blockSize;
    endBlock := endBytes / blockSize;
    base := RangeInReach(blockSize, offset, size);
  }

  /** left and the copied length of one round of ext2_read_inode_filedata and ext2_write_inode_filedata: the piece
      [left, left + n) of the block at byte `base` is what the block has in common with [offset, endBytes). */
  method FilePiece(blockSize: nat, offset: u32, endBytes: u32, i: u32, ghost base: nat) returns (left: nat, n: u32)
    requires BlockSize(blockSize) && offset <= endBytes && base == BlockByte(blockSize, i)
    requires BlockNo(blockSize, offset) <= i <= BlockNo(blockSize, endBytes)
    ensures left + n <= blockSize && base + left == Max(offset, Min(base, endBytes))
    ensures base + left + n == Max(offset, Min(base + blockSize, endBytes))
  {
    BlockNoIs(blockSize, offset);
    BlockNoIs(blockSize, endBytes);
    BlockByteIs(blockSize, i);
    PieceIs(blockSize, offset, endBytes, i);
    left := 0;
    var right := Sub32(blockSize, 1);
    if i == offset / blockSize {
      left := offset % blockSize;
    }
    if i == endBytes / blockSize {
      right := Sub32(Sub32(endBytes, endBytes / blockSize * blockSize), 1);
    }
    n := Add32(Sub32(right, left), 1);
  }

  /** The case analysis at the head of get_disk_block_number and set_disk_block_number. */
  method FindRoute(blockSize: nat, ghost ino: nat, inodeBlock: u32) returns (r: Route)
    requires BlockSize(blockSize) && inodeBlock < MaxBlocks(blockSize / 4)
    ensures RouteValid(blockSize / 4, r)
    ensures RoutePos(ino, r) == PathOf(blockSize / 4, ino, inodeBlock)
  {
    SmallRadix(blockSize);
    RouteIsPath(blockSize / 4, ino, inodeBlock);
    r := RouteOf(blockSize / 4, inodeBlock);
  }

  /** The inner loop of ext2_alloc_block: the first clear bit of a bitmap word, 32 if there is none. */
  method FirstClearBit(subBitmap: u32) returns (n: nat)
    ensures n <= 32 && (n < 32 ==> !Bit(subBitmap, n))
    ensures forall m: nat :: m < n ==> Bit(subBitmap, m)
  {
    n := 0;
    while n < 32
      invariant 0 <= n <= 32
      invariant forall m: nat :: m < n ==> Bit(subBitmap, m)
    {
      if !Bit(subBitmap, n) {
        return;
      }
      n := n + 1;
    }
  }

  /** The middle loop of ext2_alloc_block: the first clear bit of a bitmap, as bit `n` of word `j`. */
  method FirstClear(buf: array<byte>, ghost b: seq<byte>) returns (j: nat, n: nat)
    requires buf.Length % 4 == 0 && b == buf[..]
    ensures j <= buf.Length / 4 && forall m: nat :: m < 32 * j + n ==> BitOf(b, m)
    ensures j < buf.Length / 4 ==> n < 32 && !BitOf(b, 32 * j + n)
    ensures j == buf.Length / 4 ==> n == 0
  {
    j, n := 0, 0;
    while j < buf.Length / 4
      invariant 0 <= j <= buf.Length / 4 && n == 0
      invariant forall m: nat :: m < 32 * j ==> BitOf(b, m)
    {
      var subBitmap := Word(buf[..], j);
      if subBitmap == MINUS_ONE {
        WordBitsAll(b, j, 32);
        j := j + 1;
        continue;
      }
      n := FirstClearBit(subBitmap);
      WordBitsAll(b, j, n);
      if n < 32 {
        WordBits(b, j, n);
        return;
      }
      FullWordOnly(subBitmap);
    }
  }

  /** `((u32int *)buf)[k] = w` */
  method StoreWord(buf: array<byte>, k: nat, w: u32)
    requires 4 * k + 4 <= buf.Length
    modifies buf
    ensures buf[..] == SetWord(old(buf[..]), k, w)
  {
    var b := WordBytes(w);
    buf[4 * k] := b[0];
    buf[4 * k + 1] := b[1];
    buf[4 * k + 2] := b[2];
    buf[4 * k + 3] := b[3];
  }

  /** A transfer of block `n`, addressed modulo 2^32, stays on the device exactly if the device has the block; block -1
      starts behind the end of every device the driver can address. */
  lemma DeviceEnd(bytes: seq<byte>, bs: nat, n: u32)
    requires BlockSize(bs) && bs * BlockCount(bytes, bs) < WORD_LIMIT && (n < BlockCount(bytes, bs) || n == MINUS_ONE)
    ensures Mul32(bs, n) + bs <= |bytes| <==> n < BlockCount(bytes, bs)
  {
    var count := BlockCount(bytes, bs);
    if n < count {
      BlockHere(bytes, bs, n);
      BlocksApart(bs, n, count);
    } else {
      CountIs(bytes, bs);
      DivRange(|bytes|, bs);
      assert Mul32(1024, MINUS_ONE) == WORD_LIMIT - 1024 && Mul32(2048, MINUS_ONE) == WORD_LIMIT - 2048;
      assert Mul32(4096, MINUS_ONE) == WORD_LIMIT - 4096;
    }
  }

  lemma BlockNumberSmall(bs: nat, blocks: nat)
    requires bs > 0 && bs * blocks < WORD_LIMIT
    ensures blocks < WORD_LIMIT && (bs >= 4 ==> 4 * blocks < WORD_LIMIT)
  {
    MulMono(1, bs, blocks);
    MulMonoIf(4, bs, blocks);
  }
}
