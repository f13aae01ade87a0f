/** What a mounted volume looks like to somebody who has nothing but the bytes of the disk and the sizes in the
    superblock: the ext2 format itself (src/ext2.h:90-128; src/ext2.c:18-135, 233-267). */
module RawImage {
  import opened Machine
  import opened PointerTree
  import opened OwnedTree
  import opened Volume
  import opened InodeTable
  import opened FileView
  import opened FileBytes
  import opened FileHistory

  /** The 128 bytes of inode `ino`: slot ino % ipg - 1 of the table that its group's descriptor names. */
  function RawInode(g: Geo, disk: Disk, ino: nat): seq<byte>
    requires g.bs > 0 && g.ipg > 0
  {
    var at := 128 * (ino % g.ipg - 1);
    var n := ReadBgd(disk, ino / g.ipg).tableInode + at / g.bs;
    if at >= 0 && 0 <= n < |disk| && at % g.bs + 128 <= |disk[n]| then disk[n][at % g.bs..at % g.bs + 128] else []
  }

  function RawSize(raw: seq<byte>): nat {
    if |raw| == 128 then U32At(raw, 4) else 0
  }

  /** blocks[k] of an inode. */
  function RawPointer(raw: seq<byte>, k: nat): nat {
    if 40 + 4 * k + 4 <= |raw| then U32At(raw, 40 + 4 * k) else 0
  }

  /** The number at index `k` of pointer block `n`. */
  function RawWord(disk: Disk, n: nat, k: nat): nat {
    if n < |disk| && 4 * k + 4 <= |disk[n]| then U32At(disk[n], 4 * k) else 0
  }

  /** The disk block of inode block `i`: 12 direct ones, then one, two and three levels of pointer blocks with `p`
      numbers each. */
  function RawBlock(disk: Disk, p: nat, raw: seq<byte>, i: nat): nat
    requires p > 0
  {
    if i < 12 then RawPointer(raw, i)
    else if i < 12 + p then RawWord(disk, RawPointer(raw, 12), i - 12)
    else if i < 12 + p + p * p then
      var b := i - 12 - p;
      assert b / p >= 0 by { DivRange(b, p); }
      RawWord(disk, RawWord(disk, RawPointer(raw, 13), b / p), b % p)
    else
      var c := i - 12 - p - p * p;
      assert p * p > 0 by { MulPos(p, p); }
      assert c / (p * p) >= 0 by { DivRange(c, p * p); }
      var r := c % (p * p);
      assert r / p >= 0 by { DivRange(r, p); }
      RawWord(disk, RawWord(disk, RawWord(disk, RawPointer(raw, 14), c / (p * p)), r / p), r % p)
  }

  /** Byte `k` of file `ino`. */
  function RawByte(g: Geo, disk: Disk, ino: nat, k: nat): int
    requires g.bs >= 4 && g.ipg > 0
  {
    assert k / g.bs >= 0 by { DivRange(k, g.bs); }
    var n := RawBlock(disk, g.bs / 4, RawInode(g, disk, ino), k / g.bs);
    if n < |disk| && k % g.bs < |disk[n]| then disk[n][k % g.bs] else 0
  }

  // ---- it is what the driver sees --------------------------------------------------------------------------

  lemma RootIs(inodes: Inodes, ino: nat, root: nat)
    requires ino in inodes
    ensures RootCell(inodes, ino, root) == RawPointer(inodes[ino], root)
  {
  }

  lemma OneDown(disk: Disk, inodes: Inodes, q: Pos, x: nat)
    ensures At(disk, inodes, Child(q, x)) == RawWord(disk, At(disk, inodes, q), x)
  {
    assert Parent(Child(q, x)) == q;
  }

  lemma RemainderIs(c: nat, y: nat)
    requires y > 0
    ensures c - c / y * y == c % y
  {
    NumberSplit(y, c);
  }

  /** The way through the pointer blocks is the one the format prescribes. */
  lemma RawBlockIs(disk: Disk, inodes: Inodes, p: nat, ino: nat, i: nat)
    requires p > 0 && i < MaxBlocks(p) && ino in inodes
    ensures At(disk, inodes, PathOf(p, ino, i)) == RawBlock(disk, p, inodes[ino], i)
  {
    var raw := inodes[ino];
    if i < 12 {
      RootIs(inodes, ino, i);
    } else if i < 12 + p {
      RootIs(inodes, ino, 12);
      OneDown(disk, inodes, Pos(ino, 12, []), i - 12);
      assert Child(Pos(ino, 12, []), i - 12) == PathOf(p, ino, i);
    } else if i < 12 + p + p * p {
      var b := i - 12 - p;
      RootIs(inodes, ino, 13);
      DivRange(b, p);
      RemainderIs(b, p);
      TwoDown(disk, inodes, ino, 13, b / p, b % p);
      assert PathOf(p, ino, i) == Pos(ino, 13, [b / p, b % p]);
    } else {
      TripleIs(disk, inodes, p, ino, i);
    }
  }

  lemma TwoDown(disk: Disk, inodes: Inodes, ino: nat, root: nat, x: nat, y: nat)
    ensures At(disk, inodes, Pos(ino, root, [x, y]))
         == RawWord(disk, RawWord(disk, At(disk, inodes, Pos(ino, root, [])), x), y)
  {
    OneDown(disk, inodes, Pos(ino, root, []), x);
    OneDown(disk, inodes, Pos(ino, root, [x]), y);
    ChildIs(ino, root, x, y);
  }

  lemma TripleIs(disk: Disk, inodes: Inodes, p: nat, ino: nat, i: nat)
    requires p > 0 && 12 + p + p * p <= i < MaxBlocks(p) && ino in inodes
    ensures At(disk, inodes, PathOf(p, ino, i)) == RawBlock(disk, p, inodes[ino], i)
  {
    var c := i - 12 - p - p * p;
    MulPos(p, p);
    DivRange(c, p * p);
    RemainderIs(c, p * p);
    var r := c % (p * p);
    DivRange(r, p);
    RemainderIs(r, p);
    RootIs(inodes, ino, 14);
    TwoDown(disk, inodes, ino, 14, c / (p * p), r / p);
    OneDown(disk, inodes, Pos(ino, 14, [c / (p * p), r / p]), r % p);
    assert Child(Pos(ino, 14, [c / (p * p), r / p]), r % p) == Pos(ino, 14, [c / (p * p), r / p, r % p]);
    assert PathOf(p, ino, i) == Pos(ino, 14, [c / (p * p), r / p, r % p]);
  }

  lemma RawSlot(g: Geo, sh: Shape, v: Vol, ino: u32)
    requires Layout(g, sh, |v.disk|, v.bgds) && ino in sh.files
    ensures g.bs >= 4 && g.ipg > 0 && ino % g.ipg > 0 && ino / g.ipg == GroupOf(g.ipg, ino) < g.groups
    ensures var at := 128 * (ino % g.ipg - 1);
      at / g.bs == GroupOf(g.bs, SlotByte(g, ino)) && at % g.bs == SlotOffset(g, ino)
  {
    SlotPlace(g, sh, v, ino);
    SlotByteIs(g, ino);
    IdxExact(g, ino);
    GroupIs(g.ipg, ino);
    GroupIs(g.bs, SlotByte(g, ino));
  }

  /** The inode is where the descriptors on disk say. */
  lemma RawInodeIs(g: Geo, sh: Shape, v: Vol, inodes: Inodes, ino: u32)
    requires Good(g, sh, v, inodes) && ino in sh.files
    ensures g.bs >= 4 && g.ipg > 0 && RawInode(g, v.disk, ino) == Slot(g, v, ino) && |Slot(g, v, ino)| == 128
  {
    Owned(g, sh, v, inodes);
    RawSlot(g, sh, v, ino);
    SlotPlace(g, sh, v, ino);
    assert BgdOnDisk(v, ino / g.ipg);
  }

  /** On a sound volume the driver's view of a file, with the descriptors and the inode in memory, is what the format
      says about the disk. */
  lemma RawFile(g: Geo, sh: Shape, v: Vol, ino: u32, k: nat)
    requires Good(g, sh, v, TableInodes(g, sh, v)) && ino in sh.files && k < WORD_LIMIT
    ensures g.bs >= 4 && g.ipg > 0
    ensures RawByte(g, v.disk, ino, k) == FileByte(g, sh, v, TableInodes(g, sh, v), ino, k)
    ensures RawSize(RawInode(g, v.disk, ino)) == FileSize(TableInodes(g, sh, v)[ino])
  {
    var inodes := TableInodes(g, sh, v);
    RawInodeIs(g, sh, v, inodes, ino);
    ByteBlock(g, sh, v, inodes, ino, k);
    BlockNoIs(g.bs, k);
    GroupIs(g.bs, k);
    Radix(g, sh, v, inodes);
    RawBlockIs(v.disk, inodes, sh.p, ino, k / g.bs);
  }

  /** After a write a fresh mount finds, in every file and at every byte, what was there before or has been written, and
      every file has the right size: nothing in memory is needed to read the volume back. */
  lemma Remounted(g: Geo, sh: Shape, v: Vol, v': Vol, ino: nat, offset: nat, buf: seq<byte>, jno: u32, k: nat)
    requires Good(g, sh, v, TableInodes(g, sh, v)) && jno in sh.files && k < WORD_LIMIT
    requires Written(g, sh, v, TableInodes(g, sh, v), v', TableInodes(g, sh, v'), ino, offset, buf)
    ensures g.bs >= 4 && g.ipg > 0
    ensures RawByte(g, v'.disk, jno, k)
         == if jno == ino && offset <= k < offset + |buf| then buf[k - offset] else RawByte(g, v.disk, jno, k)
    ensures var was, now := RawSize(RawInode(g, v.disk, jno)), RawSize(RawInode(g, v'.disk, jno));
      now == if jno == ino then Max(was, offset + |buf|) else was
  {
    WrittenMeans(g, sh, v, TableInodes(g, sh, v), v', TableInodes(g, sh, v'), ino, offset, buf);
    RawFile(g, sh, v, jno, k);
    RawFile(g, sh, v', jno, k);
    WrittenByte(g, sh, v, TableInodes(g, sh, v), v', TableInodes(g, sh, v'), ino, offset, buf, jno, k);
  }

  // ---- the bitmaps ---------------------------------------------------------------------------------------------

  lemma {:induction false} BitSplit(x: nat, y: nat, m: nat, n: nat)
    requires x < Pow2(m)
    ensures Bit(x + Pow2(m) * y, n) <==> if n < m then Bit(x, n) else Bit(y, n - m)
  {
    if m > 0 {
      var z := Pow2(m - 1) * y;
      assert Pow2(m) * y == 2 * z;
      assert (x + 2 * z) / 2 == x / 2 + z && (x + 2 * z) % 2 == x % 2;
      if n > 0 {
        BitSplit(x / 2, y, m - 1, n - 1);
      }
    }
  }

  lemma ByteBit(x: byte, y: nat, n: nat)
    ensures Bit(x + 0x100 * y, n) <==> if n < 8 then Bit(x, n) else Bit(y, n - 8)
  {
    assert Pow2(8) == 0x100;
    BitSplit(x, y, 8, n);
  }

  /** Bit `n` of a little-endian word is bit n % 8 of its byte n / 8. */
  lemma WordBit(b0: byte, b1: byte, b2: byte, b3: byte, n: nat)
    requires n < 32
    ensures Bit(FromBytes(b0, b1, b2, b3), n) <==> Bit([b0, b1, b2, b3][n / 8], n % 8)
  {
    var y2: nat := b2 as int + 0x100 * b3 as int;
    var y1: nat := b1 as int + 0x100 * y2;
    ByteBit(b0, y1, n);
    if n >= 8 {
      ByteBit(b1, y2, n - 8);
    }
    if n >= 16 {
      ByteBit(b2, b3, n - 16);
    }
  }

  lemma BitmapBit(b: seq<byte>, k: nat)
    requires k / 32 * 4 + 4 <= |b|
    ensures k / 8 < |b| && (BitOf(b, k) <==> Bit(b[k / 8], k % 8))
  {
    BitOfIs(b, k);
    var j, n := k / 32, k % 32;
    WordBit(b[4 * j], b[4 * j + 1], b[4 * j + 2], b[4 * j + 3], n);
    assert k / 8 == 4 * j + n / 8 && k % 8 == n % 8;
  }

  /** Block `n` is free according to the bitmap block that its group's descriptor names on the disk. */
  predicate RawFree(g: Geo, disk: Disk, n: nat)
    requires g.bpg > 0
  {
    && n / g.bpg < g.groups
    && var bm, k := ReadBgd(disk, n / g.bpg).bitmapBlock, n % g.bpg;
    && bm < |disk| && k / 8 < |disk[bm]| && !Bit(disk[bm][k / 8], k % 8)
  }

  lemma RawFreeIs(g: Geo, sh: Shape, v: Vol, inodes: Inodes, n: nat)
    requires Good(g, sh, v, inodes)
    ensures g.bpg > 0 && (RawFree(g, v.disk, n) <==> IsFree(g, v, n))
  {
    Owned(g, sh, v, inodes);
    GroupIs(g.bpg, n);
    var i, k := n / g.bpg, n % g.bpg;
    if i < g.groups {
      assert BgdOnDisk(v, i) && GroupCounted(g, v, i);
      InWord(g.bs, k);
      BitmapBit(v.disk[v.bgds[i].bitmapBlock], k);
    }
  }

  // ---- after any number of writes --------------------------------------------------------------------------

  /** Write `j` is the last one to touch byte `k` of file `ino`. */
  ghost predicate LastTo(ws: seq<FileWrite>, ino: nat, k: nat, j: nat) {
    j < |ws| && Covers(ws[j], ino, k) && forall i :: j < i < |ws| ==> !Covers(ws[i], ino, k)
  }

  /** It decides what the byte is. */
  lemma {:induction false} LastCovers(ws: seq<FileWrite>, ino: nat, k: nat, was: int, j: nat)
    requires LastTo(ws, ino, k, j)
    ensures ByteAfter(ws, ino, k, was) == ws[j].data[k - ws[j].offset]
  {
    if j < |ws| - 1 {
      assert !Covers(ws[|ws| - 1], ino, k);
      LastCovers(ws[..|ws| - 1], ino, k, was, j);
    }
  }

  lemma {:induction false} NoneCovers(ws: seq<FileWrite>, ino: nat, k: nat, was: int)
    requires forall i :: 0 <= i < |ws| ==> !Covers(ws[i], ino, k)
    ensures ByteAfter(ws, ino, k, was) == was
  {
    if ws != [] {
      assert !Covers(ws[|ws| - 1], ino, k);
      NoneCovers(ws[..|ws| - 1], ino, k, was);
    }
  }

  /** After any number of writes a fresh mount finds every byte as the last write to it has left it. */
  lemma RemountedRun(g: Geo, sh: Shape, v: Vol, v': Vol, ws: seq<FileWrite>, ino: u32, k: nat)
    requires After(g, sh, v, TableInodes(g, sh, v), v', TableInodes(g, sh, v'), ws) && ino in sh.files && k < WORD_LIMIT
    ensures g.bs >= 4 && g.ipg > 0
    ensures forall j: nat :: LastTo(ws, ino, k, j) ==>
      RawByte(g, v'.disk, ino, k) == ws[j].data[k - ws[j].offset]
    ensures (forall i :: 0 <= i < |ws| ==> !Covers(ws[i], ino, k)) ==>
      RawByte(g, v'.disk, ino, k) == RawByte(g, v.disk, ino, k)
    ensures RawSize(RawInode(g, v'.disk, ino)) == SizeAfter(ws, ino, RawSize(RawInode(g, v.disk, ino)))
  {
    var i0, i1 := TableInodes(g, sh, v), TableInodes(g, sh, v');
    AfterMeans(g, sh, v, i0, v', i1, ws);
    RawFile(g, sh, v, ino, k);
    RawFile(g, sh, v', ino, k);
    var was := FileByte(g, sh, v, i0, ino, k);
    assert FileByte(g, sh, v', i1, ino, k) == ByteAfter(ws, ino, k, was);
    forall j: nat | LastTo(ws, ino, k, j)
      ensures RawByte(g, v'.disk, ino, k) == ws[j].data[k - ws[j].offset] {
      LastCovers(ws, ino, k, was, j);
    }
    if forall i :: 0 <= i < |ws| ==> !Covers(ws[i], ino, k) {
      NoneCovers(ws, ino, k, was);
    }
  }
}
