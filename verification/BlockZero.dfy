/** Block 0 is read in the place of every missing pointer block (src/ext2.c:84-135), so what it holds matters. */
module BlockZero {
  import opened Machine
  import opened PointerTree
  import opened OwnedTree
  import opened Volume
  import opened FileView

  /** Word 6 of the superblock, which ext2_init reads from byte 1024 on: byte 1024 + 24 of the device. */
  const LOG2_BLOCK_SIZE_WORD := 262

  /** Below a missing pointer block a lookup gives a word of block 0. */
  lemma BelowMissing(sh: Shape, disk: Disk, inodes: Inodes, q: Pos)
    requires WellFormed(sh, disk, inodes) && IsPos(sh, q) && q.digits != [] && At(disk, inodes, Parent(q)) == 0
    ensures LastDigit(q) < sh.p && At(disk, inodes, q) == Word(disk[0], LastDigit(q))
  {
    ParentIsPos(sh, q);
  }

  predicate ZeroWord(b: seq<byte>, k: nat) {
    4 * k + 4 <= |b| ==> Word(b, k) == 0
  }

  predicate ZeroBytes(b: seq<byte>, k: nat) {
    4 * k + 4 <= |b| ==> b[4 * k] == 0 && b[4 * k + 1] == 0 && b[4 * k + 2] == 0 && b[4 * k + 3] == 0
  }

  lemma WordBytesZero(b: seq<byte>, k: nat)
    ensures ZeroWord(b, k) <==> ZeroBytes(b, k)
  {
  }

  lemma ByteZero(b: seq<byte>, i: nat)
    requires i < |b| && |b| % 4 == 0 && ZeroBytes(b, i / 4)
    ensures b[i] == 0
  {
  }

  lemma WordsZero(b: seq<byte>)
    requires |b| % 4 == 0
    ensures AllZero(b) <==> forall k: nat :: ZeroWord(b, k)
  {
    forall k: nat ensures ZeroWord(b, k) <==> ZeroBytes(b, k) {
      WordBytesZero(b, k);
    }
    if forall k: nat :: ZeroBytes(b, k) {
      forall i | 0 <= i < |b| ensures b[i] == 0 {
        ByteZero(b, i);
      }
    }
  }

  /** Inode blocks 12, ..., 12 + p - 1. */
  lemma SinglePath(p: nat, ino: nat, a: nat)
    requires a < p
    ensures DIRECT_BLOCKS + a < MaxBlocks(p) && PathOf(p, ino, DIRECT_BLOCKS + a) == Pos(ino, 12, [a])
  {
    MulMono(0, p, p);
    MulMono(0, p * p, p);
  }

  lemma SingleIndirect(sh: Shape, disk: Disk, inodes: Inodes, ino: nat, a: nat)
    requires WellFormed(sh, disk, inodes) && ino in sh.files && At(disk, inodes, Pos(ino, 12, [])) == 0 && a < sh.p
    ensures At(disk, inodes, Pos(ino, 12, [a])) == Word(disk[0], a)
  {
    assert Parent(Pos(ino, 12, [a])) == Pos(ino, 12, []);
    BelowMissing(sh, disk, inodes, Pos(ino, 12, [a]));
  }

  /** Inode block 12 + a is found missing. */
  predicate FoundMissing(p: nat, disk: Disk, inodes: Inodes, ino: nat, a: nat) {
    a < p ==> At(disk, inodes, Pos(ino, 12, [a])) == 0
  }

  /** The inode blocks that would lie behind a missing single-indirect block are all found missing exactly if block 0 is
      all zero. */
  lemma MissingExact(sh: Shape, disk: Disk, inodes: Inodes, ino: nat)
    requires WellFormed(sh, disk, inodes) && ino in sh.files && At(disk, inodes, Pos(ino, 12, [])) == 0
    ensures AllZero(disk[0]) <==> forall a: nat :: FoundMissing(sh.p, disk, inodes, ino, a)
  {
    forall a: nat ensures FoundMissing(sh.p, disk, inodes, ino, a) <==> ZeroWord(disk[0], a) {
      if a < sh.p {
        SingleIndirect(sh, disk, inodes, ino, a);
      }
    }
    WordsZero(disk[0]);
  }

  /** With blocks of 2048 or 4096 bytes the superblock lies in block 0, so no volume the driver has mounted is sound:
      in a file without a single-indirect block, inode block 12 + 262 is found at disk block log2block_size, which is
      2, the first block of the descriptors, for blocks of 4096 bytes. */
  lemma SuperblockInside(g: Geo, sh: Shape, v: Vol, inodes: Inodes, ino: nat)
    requires WellFormed(sh, v.disk, inodes) && ino in sh.files && At(v.disk, inodes, Pos(ino, 12, [])) == 0
    requires 4 * sh.p == g.bs && (g.bs == 2048 || g.bs == 4096)
    requires Word(v.disk[0], LOG2_BLOCK_SIZE_WORD) == if g.bs == 2048 then 1 else 2
    ensures DIRECT_BLOCKS + LOG2_BLOCK_SIZE_WORD < MaxBlocks(sh.p)
    ensures At(v.disk, inodes, PathOf(sh.p, ino, DIRECT_BLOCKS + LOG2_BLOCK_SIZE_WORD)) == if g.bs == 2048 then 1 else 2
    ensures !Good(g, sh, v, inodes)
  {
    SinglePath(sh.p, ino, LOG2_BLOCK_SIZE_WORD);
    SingleIndirect(sh, v.disk, inodes, ino, LOG2_BLOCK_SIZE_WORD);
    if Good(g, sh, v, inodes) {
      Owned(g, sh, v, inodes);
      ZeroCell(v.disk, 0, LOG2_BLOCK_SIZE_WORD);
      assert false;
    }
  }
}
