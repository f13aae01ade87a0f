/** The fixed layout of an ext2 volume: block bitmaps, block group descriptors and inode
    tables (src/ext2.c:233-267, 326-364, 404-416; src/ext2.h:101-137). Block numbers follow
    ext2_alloc_block: bit k of group g stands for block g * blocks_per_group + k. */
module Volume {
  import opened Machine
  import opened PointerTree
  import opened OwnedTree

  const BGD_BYTES := 30

  datatype Bgd = Bgd(bitmapBlock: u32, bitmapInode: u32, tableInode: u32, freeBlocks: u16, freeInodes: u16,
                     numDirs: u16, unsd1: u32, unsd2: u32, unsd3: u32)

  datatype Geo = Geo(bs: nat, bpg: nat, ipg: nat, groups: nat, bgdBlocks: nat, isize: nat, tableBlocks: nat)

  datatype Vol = Vol(disk: Disk, bgds: seq<Bgd>)

  // ---- bits of a bitmap block -----------------------------------------------------------

  /** Bit `k` of a bitmap. */
  predicate BitOf(b: seq<byte>, k: nat) {
    |b| >= 4 && if k < 32 then Bit(Word(b, 0), k) else BitOf(b[4..], k - 32)
  }

  /** Bit `k` is bit k % 32 of word k / 32. */
  lemma {:induction false} BitOfIs(b: seq<byte>, k: nat)
    requires k / 32 * 4 + 4 <= |b|
    ensures BitOf(b, k) <==> Bit(Word(b, k / 32), k % 32)
  {
    if k >= 32 {
      var j := k - 32;
      assert j / 32 == k / 32 - 1 && j % 32 == k % 32;
      BitOfIs(b[4..], j);
      assert Word(b[4..], j / 32) == Word(b, k / 32);
    }
  }

  function SetBitOf(b: seq<byte>, k: nat): (r: seq<byte>)
    requires k / 32 * 4 + 4 <= |b|
    ensures |r| == |b|
  {
    SetWord(b, k / 32, SetBit32(Word(b, k / 32), k % 32))
  }

  lemma BitOfSetBitOf(b: seq<byte>, k: nat, m: nat)
    requires k / 32 * 4 + 4 <= |b| && m / 32 * 4 + 4 <= |b|
    ensures BitOf(SetBitOf(b, k), m) <==> m == k || BitOf(b, m)
  {
    BitOfSetBit(Word(b, k / 32), k % 32, m % 32);
    BitOfIs(b, m);
    BitOfIs(SetBitOf(b, k), m);
    assert k == 32 * (k / 32) + k % 32 && m == 32 * (m / 32) + m % 32;
  }

  /** How many of the first `k` bits are clear. */
  function ZeroBits(b: seq<byte>, k: nat): (r: nat)
    ensures r <= k
  {
    if k == 0 then 0 else ZeroBits(b, k - 1) + if BitOf(b, k - 1) then 0 else 1
  }

  lemma InWord(len: nat, k: nat)
    requires k < 8 * len && len % 4 == 0
    ensures k / 32 * 4 + 4 <= len
  {
  }

  lemma {:induction false} ZeroBitsSet(b: seq<byte>, c: seq<byte>, k: nat, n: nat)
    requires !BitOf(b, k) && forall m :: 0 <= m < n ==> (BitOf(c, m) <==> m == k || BitOf(b, m))
    ensures ZeroBits(c, n) == ZeroBits(b, n) - if k < n then 1 else 0
  {
    if n > 0 {
      ZeroBitsSet(b, c, k, n - 1);
    }
  }

  lemma ZeroBitsTaken(b: seq<byte>, k: nat)
    requires k < 8 * |b| && |b| % 4 == 0 && !BitOf(b, k)
    ensures k / 32 * 4 + 4 <= |b| && ZeroBits(SetBitOf(b, k), 8 * |b|) == ZeroBits(b, 8 * |b|) - 1
  {
    InWord(|b|, k);
    forall m | 0 <= m < 8 * |b| ensures BitOf(SetBitOf(b, k), m) <==> m == k || BitOf(b, m) {
      InWord(|b|, m);
      BitOfSetBitOf(b, k, m);
    }
    ZeroBitsSet(b, SetBitOf(b, k), k, 8 * |b|);
  }

  lemma {:induction false} ZeroBitsSome(b: seq<byte>, n: nat, k: nat)
    requires k < n && !BitOf(b, k)
    ensures ZeroBits(b, n) > 0
  {
    if k < n - 1 {
      ZeroBitsSome(b, n - 1, k);
    }
  }

  lemma {:induction false} ZeroBitsNone(b: seq<byte>, n: nat)
    requires ZeroBits(b, n) == 0
    ensures forall k :: 0 <= k < n ==> BitOf(b, k)
  {
    if n > 0 {
      ZeroBitsNone(b, n - 1);
    }
  }

  // ---- the volume ---------------------------------------------------------------------------

  predicate BlockSize(bs: nat) {
    bs == 1024 || bs == 2048 || bs == 4096
  }

  /** With p = bs / 4 words to a block, no intermediate value of the block number arithmetic leaves
      the range of s32int, and every 32-bit file offset lies in a block the tree can address. */
  lemma SmallRadix(bs: nat)
    requires BlockSize(bs)
    ensures var p := bs / 4;
      0 <= p * p <= 0x10_0000 && 0 <= p * p * p <= 0x4000_0000 && MaxBlocks(p) < 0x8000_0000
      && 0xFFFF_FFFF / bs < MaxBlocks(p)
  {
    assert 256 * 256 * 256 == 0x100_0000;
    assert 512 * 512 * 512 == 0x800_0000;
    assert 1024 * 1024 * 1024 == 0x4000_0000;
  }

  /** An inode number the code can map to its slot. */
  predicate ValidIno(g: Geo, ino: nat) {
    g.ipg > 0 && ino < WORD_LIMIT && GroupOf(g.ipg, ino) < g.groups && BitIn(g.ipg, ino) != 0
  }

  ghost predicate Sizes(g: Geo, sh: Shape, blocks: nat) {
    && BlockSize(g.bs) && 4 * sh.p == g.bs && g.isize == INODE_BYTES
    && 0 < g.bpg <= 8 * g.bs && g.ipg > 0
    && BGD_BYTES * g.groups <= g.bs * g.bgdBlocks && g.ipg * g.isize <= g.tableBlocks * g.bs
    && g.bs * blocks < WORD_LIMIT
    && forall ino :: ino in sh.files ==> ValidIno(g, ino)
  }

  /** A block that belongs to the volume, is not the boot block and is no descriptor block. */
  ghost predicate OwnArea(g: Geo, sh: Shape, blocks: nat, n: nat) {
    n in sh.meta && 0 < n < blocks && !(2 <= n < 2 + g.bgdBlocks)
  }

  ghost predicate Bitmaps(g: Geo, sh: Shape, blocks: nat, bgds: seq<Bgd>) {
    && |bgds| == g.groups && 2 + g.bgdBlocks <= blocks
    && (forall n :: 2 <= n < 2 + g.bgdBlocks ==> n in sh.meta)
    && (forall i :: 0 <= i < g.groups ==> OwnArea(g, sh, blocks, bgds[i].bitmapBlock))
    && (forall i, j :: 0 <= i < j < g.groups ==> bgds[i].bitmapBlock != bgds[j].bitmapBlock)
  }

  predicate InTable(g: Geo, bgds: seq<Bgd>, i: nat, n: nat) {
    i < |bgds| && bgds[i].tableInode <= n < bgds[i].tableInode + g.tableBlocks
  }

  ghost predicate Tables(g: Geo, sh: Shape, blocks: nat, bgds: seq<Bgd>) {
    && (forall i: nat, n: nat :: InTable(g, bgds, i, n) ==> OwnArea(g, sh, blocks, n))
    && (forall i: nat, j: nat, n: nat :: InTable(g, bgds, i, n) && j < |bgds| ==> bgds[j].bitmapBlock != n)
    && (forall i: nat, j: nat, n: nat :: InTable(g, bgds, i, n) && InTable(g, bgds, j, n) ==> i == j)
  }

  ghost predicate LayoutIs(g: Geo, sh: Shape, blocks: nat, bgds: seq<Bgd>, k: nat) {
    Sizes(g, sh, blocks) && Bitmaps(g, sh, blocks, bgds) && Tables(g, sh, blocks, bgds)
  }

  /** The volume's own areas: they are marked off from the files and from each other. */
  ghost predicate Layout(g: Geo, sh: Shape, blocks: nat, bgds: seq<Bgd>) {
    (if forall k: nat :: LayoutIs(g, sh, blocks, bgds, k) then Clean else Corrupt).Clean?
  }

  lemma LayoutMeans(g: Geo, sh: Shape, blocks: nat, bgds: seq<Bgd>)
    requires Layout(g, sh, blocks, bgds)
    ensures LayoutIs(g, sh, blocks, bgds, 0)
  {
  }

  // ---- numbering --------------------------------------------------------------------------------

  /** The block number `i * bpg + k` of bit `k` of group `i`. */
  function NumberOf(bpg: nat, i: nat, k: nat): nat {
    if i == 0 then k else bpg + NumberOf(bpg, i - 1, k)
  }

  /** The group `n / bpg` of a block number. */
  function GroupOf(bpg: nat, n: nat): nat
    requires bpg > 0
  {
    if n < bpg then 0 else 1 + GroupOf(bpg, n - bpg)
  }

  /** The bit `n % bpg` of a block number inside its group. */
  function BitIn(bpg: nat, n: nat): (k: nat)
    requires bpg > 0
    ensures k < bpg
  {
    if n < bpg then n else BitIn(bpg, n - bpg)
  }

  lemma {:induction false} NumberIs(bpg: nat, i: nat, k: nat)
    ensures NumberOf(bpg, i, k) == i * bpg + k
  {
    if i > 0 {
      NumberIs(bpg, i - 1, k);
    }
  }

  lemma {:induction false} GroupIs(bpg: nat, n: nat)
    requires bpg > 0
    ensures GroupOf(bpg, n) * bpg + BitIn(bpg, n) == n
    ensures GroupOf(bpg, n) == n / bpg && BitIn(bpg, n) == n % bpg
  {
    if n >= bpg {
      GroupIs(bpg, n - bpg);
    }
    DivUnique(GroupOf(bpg, n), BitIn(bpg, n), bpg);
    assert GroupOf(bpg, n) * bpg == bpg * GroupOf(bpg, n);
  }

  /** Bits and block numbers correspond one to one. */
  lemma SameNumber(bpg: nat, i: nat, k: nat, n: nat)
    requires k < bpg
    ensures n == NumberOf(bpg, i, k) <==> GroupOf(bpg, n) == i && BitIn(bpg, n) == k
  {
    NumberIs(bpg, i, k);
    GroupIs(bpg, n);
    DivUnique(i, k, bpg);
    assert n == i * bpg + k ==> n / bpg == i;
  }

  /** Block numbers grow with the group and, inside a group, with the bit. */
  lemma NumberOrder(bpg: nat, i: nat, k: nat, j: nat, m: nat)
    requires k < bpg && m < bpg
    ensures NumberOf(bpg, i, k) < NumberOf(bpg, j, m) <==> i < j || (i == j && k < m)
  {
    NumberIs(bpg, i, k);
    NumberIs(bpg, j, m);
    assert (i + 1) * bpg == i * bpg + bpg && (j + 1) * bpg == j * bpg + bpg;
    MulMonoIf(i + 1, j, bpg);
    MulMonoIf(j + 1, i, bpg);
  }

  // ---- the block bitmaps -----------------------------------------------------------------------

  /** Bit `k` of group `i`; true outside of the volume. */
  predicate MarkedBit(v: Vol, i: nat, k: nat) {
    i < |v.bgds| && v.bgds[i].bitmapBlock < |v.disk| ==> BitOf(v.disk[v.bgds[i].bitmapBlock], k)
  }

  predicate IsFree(g: Geo, v: Vol, n: nat)
    requires g.bpg > 0
  {
    GroupOf(g.bpg, n) < g.groups && !MarkedBit(v, GroupOf(g.bpg, n), BitIn(g.bpg, n))
  }

  ghost function Used(g: Geo, v: Vol): set<nat>
    requires g.bpg > 0
  {
    set n: nat | n < |v.disk| && !IsFree(g, v, n)
  }

  ghost predicate CountedIs(g: Geo, v: Vol, k: nat)
    requires g.bpg > 0
  {
    && |v.bgds| == g.groups
    && (forall i, m :: 0 <= i < g.groups && g.bpg <= m < 8 * g.bs ==> MarkedBit(v, i, m))
    && (forall n: nat :: IsFree(g, v, n) ==> n < |v.disk|)
    && (forall i :: 0 <= i < g.groups ==> GroupCounted(g, v, i))
  }

  /** Bits that stand for no block are set, and free_blocks counts the clear bits. */
  ghost predicate Counted(g: Geo, v: Vol) {
    (if g.bpg > 0 && forall k: nat :: CountedIs(g, v, k) then Clean else Corrupt).Clean?
  }

  lemma CountedMeans(g: Geo, v: Vol)
    requires Counted(g, v)
    ensures g.bpg > 0 && CountedIs(g, v, 0)
  {
    assert g.bpg > 0 && CountedIs(g, v, 0);
  }

  predicate GroupCounted(g: Geo, v: Vol, i: nat)
    requires i < |v.bgds|
  {
    var bm := v.bgds[i].bitmapBlock;
    bm < |v.disk| && |v.disk[bm]| == g.bs && v.bgds[i].freeBlocks == ZeroBits(v.disk[bm], 8 * g.bs)
  }

  function FreeCount(bgds: seq<Bgd>): nat {
    if bgds == [] then 0 else FreeCount(bgds[..|bgds| - 1]) + bgds[|bgds| - 1].freeBlocks
  }

  ghost predicate LeastFree(g: Geo, v: Vol, n: nat)
    requires g.bpg > 0
  {
    IsFree(g, v, n) && forall m: nat :: m < n ==> !IsFree(g, v, m)
  }

  /** In the ext2 format bit k of group i stands for block `first` + i * bpg + k, where `first` is the superblock's
      field supblock_idx: block `n` is free on such a volume. */
  predicate FreeFrom(g: Geo, v: Vol, first: nat, n: nat)
    requires g.bpg > 0
  {
    first <= n && IsFree(g, v, n - first)
  }

  /** The number that ext2_alloc_block returns, which never reads that field, names a free block exactly if the field
      is 0. */
  lemma FirstBlockExact(g: Geo, v: Vol, first: nat, n: nat)
    requires g.bpg > 0 && LeastFree(g, v, n)
    ensures FreeFrom(g, v, first, n) <==> first == 0
  {
    assert first <= n ==> (IsFree(g, v, n - first) <==> first == 0);
  }

  // ---- descriptors on disk -------------------------------------------------------------------------

  function U16Bytes(w: u16): (r: seq<byte>)
    ensures |r| == 2
  {
    [w % 0x100, w / 0x100]
  }

  /** The packed struct ext2_bgd. */
  function BgdBytes(b: Bgd): (r: seq<byte>)
    ensures |r| == BGD_BYTES
  {
    WordBytes(b.bitmapBlock) + WordBytes(b.bitmapInode) + WordBytes(b.tableInode)
    + U16Bytes(b.freeBlocks) + U16Bytes(b.freeInodes) + U16Bytes(b.numDirs)
    + WordBytes(b.unsd1) + WordBytes(b.unsd2) + WordBytes(b.unsd3)
  }

  function TableBytes(bgds: seq<Bgd>): (r: seq<byte>)
    ensures |r| == BGD_BYTES * |bgds|
  {
    if bgds == [] then [] else TableBytes(bgds[..|bgds| - 1]) + BgdBytes(bgds[|bgds| - 1])
  }

  /** Bytes [i * bs, (i + 1) * bs) of the zero-padded descriptor array. */
  function TableSlice(bgds: seq<Bgd>, bs: nat, i: nat): (r: seq<byte>)
    ensures |r| == bs
  {
    var t := TableBytes(bgds);
    seq(bs, k requires 0 <= k < bs => if 0 <= i * bs + k < |t| then t[i * bs + k] else 0)
  }

  /** The first `k` rounds of rewrite_bgds: the descriptor array goes to blocks 2, 3, ... */
  function RewriteSome(g: Geo, v: Vol, k: nat): (r: Vol)
    ensures |r.disk| == |v.disk| && r.bgds == v.bgds
    ensures forall n :: 0 <= n < |v.disk| ==>
      r.disk[n] == if 2 <= n < 2 + k then TableSlice(v.bgds, g.bs, n - 2) else v.disk[n]
  {
    v.(disk := seq(|v.disk|, n requires 0 <= n < |v.disk| =>
      if 2 <= n < 2 + k then TableSlice(v.bgds, g.bs, n - 2) else v.disk[n]))
  }

  function RewriteBgds(g: Geo, v: Vol): Vol {
    RewriteSome(g, v, g.bgdBlocks)
  }

  lemma RewriteNext(g: Geo, v: Vol, k: nat)
    requires 2 + k < |v.disk|
    ensures RewriteSome(g, v, 0) == v
    ensures RewriteSome(g, v, k + 1).disk == RewriteSome(g, v, k).disk[2 + k := TableSlice(v.bgds, g.bs, k)]
  {
    assert RewriteSome(g, v, 0).disk == v.disk;
  }

  /** Byte `k` of blocks n, n + 1, ... one behind the other; 0 behind the last block. */
  function AreaByte(disk: Disk, n: nat, k: nat): byte
    decreases |disk| - n
  {
    if n >= |disk| then 0
    else if k < |disk[n]| then disk[n][k]
    else AreaByte(disk, n + 1, k - |disk[n]|)
  }

  /** Bytes k, ..., k + n - 1 of blocks 2, 3, ... */
  function AreaBytes(disk: Disk, k: nat, n: nat): (r: seq<byte>)
    ensures |r| == n
  {
    seq<byte>(n, j requires 0 <= j < n => AreaByte(disk, 2, k + j))
  }

  /** The little-endian 32-bit and 16-bit numbers at byte `o`. */
  function U32At(c: seq<byte>, o: nat): u32
    requires o + 4 <= |c|
  {
    c[o] as int + 0x100 * c[o + 1] as int + 0x1_0000 * c[o + 2] as int + 0x100_0000 * c[o + 3] as int
  }

  function U16At(c: seq<byte>, o: nat): u16
    requires o + 2 <= |c|
  {
    c[o] as int + 0x100 * c[o + 1] as int
  }

  /** The fields of the packed struct ext2_bgd. */
  function Unpack(c: seq<byte>): Bgd
    requires |c| == 30
  {
    Bgd(U32At(c, 0), U32At(c, 4), U32At(c, 8), U16At(c, 12), U16At(c, 14), U16At(c, 16),
        U32At(c, 18), U32At(c, 22), U32At(c, 26))
  }

  /** What a mount reads as the descriptor of group `i`: 30 bytes at byte 30 * i of blocks 2, 3, ... */
  function ReadBgd(disk: Disk, i: nat): Bgd {
    Unpack(AreaBytes(disk, 30 * i, 30))
  }

  predicate BgdOnDisk(v: Vol, i: nat) {
    i < |v.bgds| ==> ReadBgd(v.disk, i) == v.bgds[i]
  }

  /** A mount of the volume would find the descriptors that are in memory. */
  ghost predicate BgdsOnDisk(v: Vol) {
    (if forall i: nat :: BgdOnDisk(v, i) then Clean else Corrupt).Clean?
  }

  lemma {:induction false} TableByteAt(bgds: seq<Bgd>, i: nat, o: nat)
    requires i < |bgds| && o < 30
    ensures TableBytes(bgds)[30 * i + o] == BgdBytes(bgds[i])[o]
  {
    if i < |bgds| - 1 {
      TableByteAt(bgds[..|bgds| - 1], i, o);
    }
  }

  lemma SliceByte(bgds: seq<Bgd>, bs: nat, q: nat, r: nat, k: nat)
    requires r < bs && k == q * bs + r && k < |TableBytes(bgds)|
    ensures TableSlice(bgds, bs, q)[r] == TableBytes(bgds)[k]
  {
  }

  lemma {:induction false} RewrittenByte(g: Geo, v: Vol, q: nat, r: nat, k: nat)
    requires 0 < g.bs && 2 + g.bgdBlocks <= |v.disk| && k == q * g.bs + r
    requires k < BGD_BYTES * |v.bgds| <= g.bgdBlocks * g.bs
    ensures AreaByte(RewriteBgds(g, v).disk, 2 + q, r) == TableBytes(v.bgds)[k]
    decreases r
  {
    MulBelow(q, g.bgdBlocks, g.bs);
    assert RewriteBgds(g, v).disk[2 + q] == TableSlice(v.bgds, g.bs, q);
    if r < g.bs {
      SliceByte(v.bgds, g.bs, q, r, k);
    } else {
      assert (q + 1) * g.bs == q * g.bs + g.bs;
      RewrittenByte(g, v, q + 1, r - g.bs, k);
    }
  }

  lemma MulBelow(q: nat, n: nat, y: nat)
    requires q * y < n * y
    ensures q < n
  {
    MulMonoIf(n, q, y);
  }

  lemma WordUnpacks(c: seq<byte>, o: nat, w: u32)
    requires o + 4 <= |c| && c[o..o + 4] == WordBytes(w)
    ensures U32At(c, o) == w
  {
    assert c[o] == c[o..o + 4][0] && c[o + 1] == c[o..o + 4][1];
    assert c[o + 2] == c[o..o + 4][2] && c[o + 3] == c[o..o + 4][3];
  }

  lemma HalfUnpacks(c: seq<byte>, o: nat, w: u16)
    requires o + 2 <= |c| && c[o..o + 2] == U16Bytes(w)
    ensures U16At(c, o) == w
  {
    assert c[o] == c[o..o + 2][0] && c[o + 1] == c[o..o + 2][1];
  }

  lemma BgdWords(b: Bgd)
    ensures var c := BgdBytes(b);
      U32At(c, 0) == b.bitmapBlock && U32At(c, 4) == b.bitmapInode && U32At(c, 8) == b.tableInode
  {
    WordUnpacks(BgdBytes(b), 0, b.bitmapBlock);
    WordUnpacks(BgdBytes(b), 4, b.bitmapInode);
    WordUnpacks(BgdBytes(b), 8, b.tableInode);
  }

  lemma BgdHalves(b: Bgd)
    ensures var c := BgdBytes(b);
      U16At(c, 12) == b.freeBlocks && U16At(c, 14) == b.freeInodes && U16At(c, 16) == b.numDirs
  {
    HalfUnpacks(BgdBytes(b), 12, b.freeBlocks);
    HalfUnpacks(BgdBytes(b), 14, b.freeInodes);
    HalfUnpacks(BgdBytes(b), 16, b.numDirs);
  }

  lemma BgdUnused(b: Bgd)
    ensures var c := BgdBytes(b);
      U32At(c, 18) == b.unsd1 && U32At(c, 22) == b.unsd2 && U32At(c, 26) == b.unsd3
  {
    WordUnpacks(BgdBytes(b), 18, b.unsd1);
    WordUnpacks(BgdBytes(b), 22, b.unsd2);
    WordUnpacks(BgdBytes(b), 26, b.unsd3);
  }

  lemma UnpackBytes(b: Bgd)
    ensures Unpack(BgdBytes(b)) == b
  {
    var r := Unpack(BgdBytes(b));
    assert r.bitmapBlock == b.bitmapBlock && r.bitmapInode == b.bitmapInode && r.tableInode == b.tableInode by {
      BgdWords(b);
    }
    assert r.freeBlocks == b.freeBlocks && r.freeInodes == b.freeInodes && r.numDirs == b.numDirs by {
      BgdHalves(b);
    }
    assert r.unsd1 == b.unsd1 && r.unsd2 == b.unsd2 && r.unsd3 == b.unsd3 by {
      BgdUnused(b);
    }
  }

  /** After rewrite_bgds a mount finds every descriptor, also one that crosses a block boundary. */
  lemma BgdsRewritten(g: Geo, v: Vol)
    requires 0 < g.bs && 2 + g.bgdBlocks <= |v.disk| && BGD_BYTES * |v.bgds| <= g.bs * g.bgdBlocks
    ensures BgdsOnDisk(RewriteBgds(g, v))
    ensures forall i :: 0 <= i < |v.bgds| ==> ReadBgd(RewriteBgds(g, v).disk, i) == v.bgds[i]
  {
    var r := RewriteBgds(g, v);
    assert g.bs * g.bgdBlocks == g.bgdBlocks * g.bs;
    forall i: nat ensures BgdOnDisk(r, i) {
      if i < |v.bgds| {
        forall o | 0 <= o < 30 ensures AreaBytes(r.disk, 30 * i, 30)[o] == BgdBytes(v.bgds[i])[o] {
          TableByteAt(v.bgds, i, o);
          RewrittenByte(g, v, 0, 30 * i + o, 30 * i + o);
        }
        assert AreaBytes(r.disk, 30 * i, 30) == BgdBytes(v.bgds[i]);
        UnpackBytes(v.bgds[i]);
      }
    }
    forall i | 0 <= i < |v.bgds| ensures ReadBgd(r.disk, i) == v.bgds[i] {
      assert BgdOnDisk(r, i);
    }
  }

  lemma BgdsFit(g: Geo, sh: Shape, blocks: nat, bgds: seq<Bgd>)
    requires Layout(g, sh, blocks, bgds)
    ensures BGD_BYTES * |bgds| <= g.bs * g.bgdBlocks
  {
    LayoutMeans(g, sh, blocks, bgds);
  }

  lemma {:induction false} AreaSame(disk: Disk, disk': Disk, bs: nat, n: nat, hi: nat, k: nat)
    requires n <= hi <= |disk| == |disk'| && k < bs * (hi - n)
    requires forall j :: n <= j < hi ==> |disk[j]| == bs && disk'[j] == disk[j]
    ensures AreaByte(disk', n, k) == AreaByte(disk, n, k)
    decreases hi - n
  {
    if n < hi && k >= bs {
      assert bs * (hi - n) == bs * (hi - (n + 1)) + bs;
      AreaSame(disk, disk', bs, n + 1, hi, k - bs);
    }
  }

  lemma ReadBgdSame(disk: Disk, disk': Disk, bs: nat, blocks: nat, i: nat)
    requires 2 + blocks <= |disk| == |disk'| && 30 * (i + 1) <= bs * blocks
    requires forall j :: 2 <= j < 2 + blocks ==> |disk[j]| == bs && disk'[j] == disk[j]
    ensures ReadBgd(disk', i) == ReadBgd(disk, i)
  {
    var a, b := AreaBytes(disk, 30 * i, 30), AreaBytes(disk', 30 * i, 30);
    forall o | 0 <= o < 30 ensures b[o] == a[o] {
      AreaSame(disk, disk', bs, 2, 2 + blocks, 30 * i + o);
    }
    assert a == b;
  }

  /** Writing elsewhere leaves the descriptors on disk alone. */
  lemma BgdsKept(g: Geo, sh: Shape, v: Vol, v': Vol)
    requires Layout(g, sh, |v.disk|, v.bgds) && BgdsOnDisk(v) && |v'.disk| == |v.disk| && v'.bgds == v.bgds
    requires forall n :: 0 <= n < |v.disk| ==> |v.disk[n]| == g.bs
    requires forall n :: 2 <= n < 2 + g.bgdBlocks && n < |v.disk| ==> v'.disk[n] == v.disk[n]
    ensures BgdsOnDisk(v')
  {
    LayoutMeans(g, sh, |v.disk|, v.bgds);
    forall i: nat ensures BgdOnDisk(v', i) {
      assert BgdOnDisk(v, i);
      if i < |v.bgds| {
        ReadBgdSame(v.disk, v'.disk, g.bs, g.bgdBlocks, i);
      }
    }
  }

  // ---- allocation --------------------------------------------------------------------------------------

  /** The volume after ext2_alloc_block has taken bit `k` of group `i`. */
  function Take(g: Geo, v: Vol, i: nat, k: nat): Vol {
    if i < |v.bgds| && v.bgds[i].bitmapBlock < |v.disk| && k / 32 * 4 + 4 <= |v.disk[v.bgds[i].bitmapBlock]| then
      var bm := v.bgds[i].bitmapBlock;
      RewriteBgds(g, Vol(v.disk[bm := SetBitOf(v.disk[bm], k)],
                         v.bgds[i := v.bgds[i].(freeBlocks := Dec16(v.bgds[i].freeBlocks))]))
    else v
  }

  // ---- what an allocation changes ---------------------------------------------------------------------

  /** The descriptor fields that say where a group's areas are. */
  predicate SamePlaces(a: seq<Bgd>, b: seq<Bgd>) {
    |a| == |b| && forall i :: 0 <= i < |a| ==>
      a[i].bitmapBlock == b[i].bitmapBlock && a[i].tableInode == b[i].tableInode
  }

  lemma {:induction false} FreeCountUpdate(bgds: seq<Bgd>, i: nat, b: Bgd)
    requires i < |bgds|
    ensures FreeCount(bgds[i := b]) == FreeCount(bgds) - bgds[i].freeBlocks + b.freeBlocks
  {
    var n := |bgds| - 1;
    if i < n {
      FreeCountUpdate(bgds[..n], i, b);
      assert bgds[i := b][..n] == bgds[..n][i := b];
    } else {
      assert bgds[i := b][..n] == bgds[..n];
    }
  }

  lemma {:induction false} FreeCountNone(bgds: seq<Bgd>)
    ensures FreeCount(bgds) == 0 <==> forall i :: 0 <= i < |bgds| ==> bgds[i].freeBlocks == 0
  {
    if bgds != [] {
      var n := |bgds| - 1;
      FreeCountNone(bgds[..n]);
      if forall i :: 0 <= i < n ==> bgds[..n][i].freeBlocks == 0 {
        forall i | 0 <= i < n ensures bgds[i].freeBlocks == 0 {
          assert bgds[..n][i].freeBlocks == 0;
        }
      }
    }
  }

  /** Bit `k` of group `i` is clear, on a volume whose bitmaps are in order. */
  ghost predicate CanTake(g: Geo, sh: Shape, v: Vol, i: nat, k: nat) {
    0 < g.bpg && k < g.bpg && i < g.groups <= |v.bgds| &&
    (if 0 < g.bpg <= 8 * g.bs && g.bs % 4 == 0 && Bitmaps(g, sh, |v.disk|, v.bgds) && Counted(g, v)
     && !MarkedBit(v, i, k)
     then Clean else Corrupt).Clean?
  }

  lemma TakeFits(g: Geo, sh: Shape, v: Vol, i: nat, k: nat)
    requires CanTake(g, sh, v, i, k)
    ensures v.bgds[i].bitmapBlock < |v.disk| && k / 32 * 4 + 4 <= |v.disk[v.bgds[i].bitmapBlock]| == g.bs
  {
    CountedMeans(g, v);
    assert GroupCounted(g, v, i);
    InWord(g.bs, k);
  }

  /** The bitmap of group `j` after the allocation. */
  lemma TakeBitmap(g: Geo, sh: Shape, v: Vol, i: nat, k: nat, j: nat)
    requires CanTake(g, sh, v, i, k) && j < g.groups
    ensures var bm := v.bgds[j].bitmapBlock;
      && bm < |v.disk| && |v.disk[bm]| == g.bs && Take(g, v, i, k).bgds[j].bitmapBlock == bm
      && Take(g, v, i, k).disk[bm] == if i == j then SetBitOf(v.disk[bm], k) else v.disk[bm]
  {
    CountedMeans(g, v);
    TakeFits(g, sh, v, i, k);
    assert GroupCounted(g, v, j);
    assert OwnArea(g, sh, |v.disk|, v.bgds[i].bitmapBlock) && OwnArea(g, sh, |v.disk|, v.bgds[j].bitmapBlock);
  }

  lemma TakeBits(g: Geo, sh: Shape, v: Vol, i: nat, k: nat, j: nat, m: nat)
    requires CanTake(g, sh, v, i, k) && j < g.groups && m < 8 * g.bs
    ensures MarkedBit(Take(g, v, i, k), j, m) <==> MarkedBit(v, j, m) || (j == i && m == k)
  {
    CountedMeans(g, v);
    TakeFits(g, sh, v, i, k);
    TakeBitmap(g, sh, v, i, k, j);
    InWord(g.bs, m);
    if i == j {
      BitOfSetBitOf(v.disk[v.bgds[i].bitmapBlock], k, m);
    }
  }

  /** Taking a free bit: exactly that block stops being free. */
  lemma TakeFree(g: Geo, sh: Shape, v: Vol, i: nat, k: nat, n: nat)
    requires CanTake(g, sh, v, i, k)
    ensures IsFree(g, Take(g, v, i, k), n) <==> IsFree(g, v, n) && n != NumberOf(g.bpg, i, k)
  {
    CountedMeans(g, v);
    TakeFits(g, sh, v, i, k);
    SameNumber(g.bpg, i, k, n);
    var j, m := GroupOf(g.bpg, n), BitIn(g.bpg, n);
    if j < g.groups {
      TakeBits(g, sh, v, i, k, j, m);
    }
  }

  lemma TakeUsed(g: Geo, sh: Shape, v: Vol, i: nat, k: nat)
    requires CanTake(g, sh, v, i, k)
    ensures IsFree(g, v, NumberOf(g.bpg, i, k)) && NumberOf(g.bpg, i, k) < |v.disk|
    ensures Used(g, Take(g, v, i, k)) == Used(g, v) + {NumberOf(g.bpg, i, k)}
  {
    CountedMeans(g, v);
    var v', n := Take(g, v, i, k), NumberOf(g.bpg, i, k);
    SameNumber(g.bpg, i, k, n);
    forall m: nat ensures IsFree(g, v', m) <==> IsFree(g, v, m) && m != n {
      TakeFree(g, sh, v, i, k, m);
    }
    assert IsFree(g, v, n);
    UsedWithout(g, v, v', n);
  }

  lemma UsedWithout(g: Geo, v: Vol, v': Vol, n: nat)
    requires g.bpg > 0 && |v'.disk| == |v.disk| && n < |v.disk|
    requires forall m: nat :: IsFree(g, v', m) <==> IsFree(g, v, m) && m != n
    ensures Used(g, v') == Used(g, v) + {n}
  {
  }

  /** Taking a free bit changes nothing on disk but one bitmap and the descriptors. */
  lemma TakeFrame(g: Geo, sh: Shape, v: Vol, i: nat, k: nat)
    requires CanTake(g, sh, v, i, k)
    ensures var v' := Take(g, v, i, k);
      && |v'.disk| == |v.disk| && SamePlaces(v.bgds, v'.bgds)
      && (forall n :: 0 <= n < |v.disk| && |v.disk[n]| == g.bs ==> |v'.disk[n]| == g.bs)
      && (forall n :: 0 <= n < |v.disk| && (n == 0 || n !in sh.meta) ==> v'.disk[n] == v.disk[n])
      && (forall n :: 0 <= n < |v.disk| && n != v.bgds[i].bitmapBlock && !(2 <= n < 2 + g.bgdBlocks) ==>
          v'.disk[n] == v.disk[n])
      && (Tables(g, sh, |v.disk|, v.bgds) ==> forall j: nat, n: nat :: InTable(g, v.bgds, j, n) && n < |v.disk| ==>
          v'.disk[n] == v.disk[n])
  {
    TakeFits(g, sh, v, i, k);
    assert OwnArea(g, sh, |v.disk|, v.bgds[i].bitmapBlock);
    assert Tables(g, sh, |v.disk|, v.bgds) ==> forall j: nat, n: nat :: InTable(g, v.bgds, j, n) ==>
      OwnArea(g, sh, |v.disk|, n);
  }

  lemma TakeHasFree(g: Geo, v: Vol, i: nat, k: nat)
    requires 0 < g.bpg <= 8 * g.bs && Counted(g, v) && i < g.groups && k < g.bpg && !MarkedBit(v, i, k)
    ensures v.bgds[i].freeBlocks > 0
  {
    CountedMeans(g, v);
    assert GroupCounted(g, v, i);
    ZeroBitsSome(v.disk[v.bgds[i].bitmapBlock], 8 * g.bs, k);
  }

  lemma TakeBgds(g: Geo, v: Vol, i: nat, k: nat)
    requires i < |v.bgds| && v.bgds[i].bitmapBlock < |v.disk| && k / 32 * 4 + 4 <= |v.disk[v.bgds[i].bitmapBlock]|
    requires v.bgds[i].freeBlocks > 0
    ensures Take(g, v, i, k).bgds == v.bgds[i := v.bgds[i].(freeBlocks := v.bgds[i].freeBlocks - 1)]
  {
  }

  lemma TakeCount(g: Geo, sh: Shape, v: Vol, i: nat, k: nat)
    requires CanTake(g, sh, v, i, k)
    ensures FreeCount(Take(g, v, i, k).bgds) == FreeCount(v.bgds) - 1
  {
    TakeFits(g, sh, v, i, k);
    TakeHasFree(g, v, i, k);
    TakeBgds(g, v, i, k);
    FreeCountUpdate(v.bgds, i, v.bgds[i].(freeBlocks := v.bgds[i].freeBlocks - 1));
  }

  /** free_blocks keeps counting the clear bits. */
  lemma TakeCounted(g: Geo, sh: Shape, v: Vol, i: nat, k: nat)
    requires CanTake(g, sh, v, i, k)
    ensures Counted(g, Take(g, v, i, k))
  {
    CountedMeans(g, v);
    TakeFits(g, sh, v, i, k);
    var v' := Take(g, v, i, k);
    forall j, m | 0 <= j < g.groups && g.bpg <= m < 8 * g.bs ensures MarkedBit(v', j, m) {
      TakeBits(g, sh, v, i, k, j, m);
    }
    forall n: nat | IsFree(g, v', n) ensures n < |v'.disk| {
      TakeFree(g, sh, v, i, k, n);
    }
    forall j | 0 <= j < g.groups ensures GroupCounted(g, v', j) {
      TakeGroup(g, sh, v, i, k, j);
    }
    assert CountedIs(g, v', 0);
  }

  lemma TakeGroup(g: Geo, sh: Shape, v: Vol, i: nat, k: nat, j: nat)
    requires CanTake(g, sh, v, i, k) && j < g.groups
    ensures GroupCounted(g, Take(g, v, i, k), j)
  {
    CountedMeans(g, v);
    TakeFits(g, sh, v, i, k);
    TakeBitmap(g, sh, v, i, k, j);
    TakeHasFree(g, v, i, k);
    TakeBgds(g, v, i, k);
    assert GroupCounted(g, v, j);
    var b := v.disk[v.bgds[j].bitmapBlock];
    if i == j {
      ZeroBitsTaken(b, k);
    }
  }

  lemma LayoutKept(g: Geo, sh: Shape, blocks: nat, bgds: seq<Bgd>, bgds': seq<Bgd>)
    requires Layout(g, sh, blocks, bgds) && SamePlaces(bgds, bgds')
    ensures Layout(g, sh, blocks, bgds')
    ensures forall i: nat, n: nat :: InTable(g, bgds', i, n) <==> InTable(g, bgds, i, n)
  {
    LayoutMeans(g, sh, blocks, bgds);
    assert forall i: nat, n: nat :: InTable(g, bgds', i, n) <==> InTable(g, bgds, i, n);
    assert forall i: nat :: i < |bgds| ==> bgds'[i].bitmapBlock == bgds[i].bitmapBlock;
    assert LayoutIs(g, sh, blocks, bgds', 0);
  }

  // ---- scanning ------------------------------------------------------------------------------------------

  /** Every bit of the groups below `i`, and the first `k` bits of group `i`, are set. */
  ghost predicate Scanned(g: Geo, v: Vol, i: nat, k: nat) {
    (if && (forall j: nat, m: nat :: j < i && m < g.bpg ==> MarkedBit(v, j, m))
        && (forall m: nat :: m < k ==> MarkedBit(v, i, m))
     then Clean else Corrupt).Clean?
  }

  lemma ScannedHere(g: Geo, v: Vol, i: nat, k: nat, b: seq<byte>)
    requires Scanned(g, v, i, 0) && i < |v.bgds| && v.bgds[i].bitmapBlock < |v.disk|
             && b == v.disk[v.bgds[i].bitmapBlock]
    requires forall m: nat :: m < k ==> BitOf(b, m)
    ensures Scanned(g, v, i, k)
    ensures MarkedBit(v, i, k) <==> BitOf(b, k)
  {
  }

  lemma ScannedNone(g: Geo, v: Vol)
    ensures Scanned(g, v, 0, 0)
  {
  }

  lemma ScannedNext(g: Geo, v: Vol, i: nat)
    requires Scanned(g, v, i, 0) && forall m: nat :: m < g.bpg ==> MarkedBit(v, i, m)
    ensures Scanned(g, v, i + 1, 0)
  {
  }

  lemma ScannedGroup(g: Geo, v: Vol, i: nat, k: nat)
    requires Scanned(g, v, i, k) && k >= g.bpg
    ensures Scanned(g, v, i + 1, 0)
  {
  }

  /** A group whose counter is 0 has no clear bit. */
  lemma EmptyGroup(g: Geo, v: Vol, i: nat)
    requires 0 < g.bpg <= 8 * g.bs && Counted(g, v) && i < g.groups == |v.bgds| && v.bgds[i].freeBlocks == 0
    ensures forall m: nat :: m < g.bpg ==> MarkedBit(v, i, m)
  {
    CountedMeans(g, v);
    assert GroupCounted(g, v, i);
    ZeroBitsNone(v.disk[v.bgds[i].bitmapBlock], 8 * g.bs);
  }

  lemma ScannedAll(g: Geo, v: Vol)
    requires g.bpg > 0 && Scanned(g, v, g.groups, 0)
    ensures NoneFree(g, v)
  {
  }

  /** The first clear bit of the scan is the smallest free block number. */
  lemma ScannedLeast(g: Geo, v: Vol, i: nat, k: nat)
    requires g.bpg > 0 && Scanned(g, v, i, k) && i < g.groups && k < g.bpg && !MarkedBit(v, i, k)
    ensures LeastFree(g, v, NumberOf(g.bpg, i, k))
    ensures GroupOf(g.bpg, NumberOf(g.bpg, i, k)) == i && BitIn(g.bpg, NumberOf(g.bpg, i, k)) == k
  {
    var n := NumberOf(g.bpg, i, k);
    SameNumber(g.bpg, i, k, n);
    forall m: nat | m < n ensures !IsFree(g, v, m) {
      var j, b := GroupOf(g.bpg, m), BitIn(g.bpg, m);
      SameNumber(g.bpg, j, b, m);
      NumberOrder(g.bpg, j, b, i, k);
    }
  }

  /** Whatever the allocation has changed, a mount finds it. */
  lemma TakeMounted(g: Geo, sh: Shape, v: Vol, i: nat, k: nat)
    requires Layout(g, sh, |v.disk|, v.bgds) && CanTake(g, sh, v, i, k)
    ensures BgdsOnDisk(Take(g, v, i, k))
  {
    LayoutMeans(g, sh, |v.disk|, v.bgds);
    TakeFits(g, sh, v, i, k);
    var bm := v.bgds[i].bitmapBlock;
    BgdsRewritten(g, Vol(v.disk[bm := SetBitOf(v.disk[bm], k)],
                         v.bgds[i := v.bgds[i].(freeBlocks := Dec16(v.bgds[i].freeBlocks))]));
  }

  /** Taking a bit is setting it in the bitmap block, decrementing the counter, rewriting the descriptors. */
  lemma TakeIs(g: Geo, sh: Shape, v: Vol, i: nat, j: nat, n: nat)
    requires CanTake(g, sh, v, i, 32 * j + n) && n < 32
    ensures v.bgds[i].bitmapBlock < |v.disk| && 4 * j + 4 <= |v.disk[v.bgds[i].bitmapBlock]| == g.bs
    ensures Take(g, v, i, 32 * j + n) == MarkAndCount(g, v, i, j, n)
  {
    var k := 32 * j + n;
    assert k / 32 == j && k % 32 == n;
    TakeFits(g, sh, v, i, k);
  }

  /** The writes of ext2_alloc_block: bit `n` of word `j` of the bitmap, the counter, the descriptors. */
  function MarkAndCount(g: Geo, v: Vol, i: nat, j: nat, n: nat): Vol
    requires i < |v.bgds| && v.bgds[i].bitmapBlock < |v.disk| && 4 * j + 4 <= |v.disk[v.bgds[i].bitmapBlock]| && n < 32
  {
    var bm := v.bgds[i].bitmapBlock;
    RewriteBgds(g, Vol(v.disk[bm := SetWord(v.disk[bm], j, SetBit32(Word(v.disk[bm], j), n))],
                       v.bgds[i := v.bgds[i].(freeBlocks := Dec16(v.bgds[i].freeBlocks))]))
  }

  lemma TakeNumberIs(g: Geo, v: Vol, i: nat, k: nat, no: nat)
    requires g.bpg > 0 && GroupOf(g.bpg, no) == i && BitIn(g.bpg, no) == k
    ensures Take(g, v, i, k) == TakeNumber(g, v, no)
  {
  }

  /** The number ext2_alloc_block computes for the bit is the block's number. */
  lemma CodeNumber(bpg: nat, i: nat, j: nat, n: nat)
    ensures i * bpg + j * 32 + n == NumberOf(bpg, i, 32 * j + n)
  {
    NumberIs(bpg, i, 32 * j + n);
  }

  lemma TakeIsNumber(g: Geo, v: Vol, i: nat, k: nat)
    requires 0 < g.bpg && k < g.bpg
    ensures Take(g, v, i, k) == TakeNumber(g, v, NumberOf(g.bpg, i, k))
  {
    SameNumber(g.bpg, i, k, NumberOf(g.bpg, i, k));
    TakeNumberIs(g, v, i, k, NumberOf(g.bpg, i, k));
  }

  /** The bit at which the scan stops: its number is the least free block, and the writes take exactly it. */
  lemma FoundIs(g: Geo, sh: Shape, v: Vol, i: nat, j: nat, n: nat) returns (no: nat)
    requires Layout(g, sh, |v.disk|, v.bgds) && Counted(g, v) && i < g.groups && j < g.bs / 4 && n < 32
    requires Scanned(g, v, i, 32 * j + n) && !MarkedBit(v, i, 32 * j + n)
    ensures no == i * g.bpg + j * 32 + n && no < |v.disk| && no < MINUS_ONE
    ensures LeastFree(g, v, no) && !NoneFree(g, v)
    ensures v.bgds[i].bitmapBlock < |v.disk| && 4 * j + 4 <= |v.disk[v.bgds[i].bitmapBlock]|
    ensures MarkAndCount(g, v, i, j, n) == TakeNumber(g, v, no)
  {
    var k := 32 * j + n;
    Basics(g, sh, |v.disk|, v.bgds);
    MulMono(4, g.bs, |v.disk|);
    ScannedTake(g, sh, v, i, k);
    TakeIs(g, sh, v, i, j, n);
    TakeIsNumber(g, v, i, k);
    CodeNumber(g.bpg, i, j, n);
    no := NumberOf(g.bpg, i, k);
  }

  /** The bits of word `j` of a bitmap. */
  lemma WordBits(b: seq<byte>, j: nat, n: nat)
    requires 4 * j + 4 <= |b| && n < 32
    ensures BitOf(b, 32 * j + n) == Bit(Word(b, j), n)
  {
    BitOfIs(b, 32 * j + n);
    assert (32 * j + n) / 32 == j && (32 * j + n) % 32 == n;
  }

  /** If the first `n` bits of word `j` and everything before it are set, so are the first 32 * j + n bits. */
  lemma WordBitsAll(b: seq<byte>, j: nat, n: nat)
    requires 4 * j + 4 <= |b| && n <= 32 && forall m: nat :: m < 32 * j ==> BitOf(b, m)
    requires Word(b, j) == MINUS_ONE || forall m: nat :: m < n ==> Bit(Word(b, j), m)
    ensures forall m: nat :: m < 32 * j + n ==> BitOf(b, m)
  {
    Pow2Of32();
    forall m: nat | 32 * j <= m < 32 * j + n ensures BitOf(b, m) {
      WordBits(b, j, m - 32 * j);
      if Word(b, j) == MINUS_ONE {
        AllOnesBit(32, m - 32 * j);
      }
    }
  }

  /** A word whose 32 bits are set is the one the scan has skipped already. */
  lemma FullWordOnly(w: u32)
    requires forall m: nat :: m < 32 ==> Bit(w, m)
    ensures w == MINUS_ONE
  {
    Pow2Of32();
    AllOnesOnly(w, 32);
  }

  /** A clear bit of a bitmap stands for a block of the group: the padding is set. */
  lemma BitInGroup(g: Geo, v: Vol, i: nat, k: nat)
    requires g.bpg > 0 && Counted(g, v) && i < g.groups && k < 8 * g.bs && !MarkedBit(v, i, k)
    ensures k < g.bpg
  {
    CountedMeans(g, v);
  }

  ghost predicate NoneFree(g: Geo, v: Vol)
    requires g.bpg > 0
  {
    forall n: nat :: !IsFree(g, v, n)
  }

  lemma ScannedTake(g: Geo, sh: Shape, v: Vol, i: nat, k: nat)
    requires 0 < g.bpg <= 8 * g.bs && g.bs % 4 == 0 && Bitmaps(g, sh, |v.disk|, v.bgds) && Counted(g, v)
    requires Scanned(g, v, i, k) && i < g.groups && k < 8 * g.bs && !MarkedBit(v, i, k)
    ensures CanTake(g, sh, v, i, k)
    ensures LeastFree(g, v, NumberOf(g.bpg, i, k)) && NumberOf(g.bpg, i, k) < |v.disk| && !NoneFree(g, v)
  {
    BitInGroup(g, v, i, k);
    ScannedLeast(g, v, i, k);
    TakeUsed(g, sh, v, i, k);
  }

  /** The volume after block `no` has been taken. */
  function TakeNumber(g: Geo, v: Vol, no: nat): Vol
    requires g.bpg > 0
  {
    Take(g, v, GroupOf(g.bpg, no), BitIn(g.bpg, no))
  }

  lemma Basics(g: Geo, sh: Shape, blocks: nat, bgds: seq<Bgd>)
    requires Layout(g, sh, blocks, bgds)
    ensures g.bs > 0 && g.bs % 4 == 0 && g.bs * blocks < WORD_LIMIT && 0 < g.bpg <= 8 * g.bs
    ensures Bitmaps(g, sh, blocks, bgds)
  {
    LayoutMeans(g, sh, blocks, bgds);
  }

  /** What every layout of this geometry has in common. */
  ghost predicate Suited(g: Geo, sh: Shape) {
    BlockSize(g.bs) && sh.p == g.bs / 4 && g.isize >= INODE_BYTES && g.bpg > 0
  }

  lemma LayoutRadix(g: Geo, sh: Shape, blocks: nat, bgds: seq<Bgd>)
    requires Layout(g, sh, blocks, bgds)
    ensures Suited(g, sh) && sh.p > 0 && g.bs * blocks < WORD_LIMIT
  {
    LayoutMeans(g, sh, blocks, bgds);
  }
}
