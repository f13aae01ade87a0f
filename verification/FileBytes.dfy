/** Files as byte sequences over inode blocks (src/ext2.c:154-231). */
module FileBytes {
  import opened Machine
  import opened PointerTree
  import opened OwnedTree
  import opened Volume
  import opened InodeTable
  import opened FileView

  // ---- bytes and inode blocks ---------------------------------------------------------------------

  /** The inode block k / bs that byte `k` of a file lies in. */
  function BlockNo(bs: nat, k: nat): nat
    requires bs > 0
  {
    GroupOf(bs, k)
  }

  /** The first byte bs * i of inode block `i`. */
  function BlockByte(bs: nat, i: nat): nat {
    NumberOf(bs, i, 0)
  }

  lemma BlockNoIs(bs: nat, k: nat)
    requires bs > 0
    ensures BlockNo(bs, k) == k / bs
  {
    GroupIs(bs, k);
  }

  lemma BlockByteIs(bs: nat, i: nat)
    ensures BlockByte(bs, i) == bs * i
  {
    NumberIs(bs, i, 0);
  }

  lemma BlockNext(bs: nat, i: nat)
    ensures BlockByte(bs, i + 1) == BlockByte(bs, i) + bs
  {
  }

  // ---- the piece of a block a transfer touches -------------------------------------------------

  /** right - left + 1 of ext2_read_inode_filedata and ext2_write_inode_filedata, in 32-bit arithmetic. */
  function PieceLeft(bs: nat, offset: nat, i: nat): nat
    requires bs > 0
  {
    if i == offset / bs then offset % bs else 0
  }

  function PieceLen(bs: nat, offset: nat, end: nat, i: nat): u32
    requires bs > 0
  {
    var endBlock := end / bs;
    var endOffset := Sub32(end, endBlock * bs);
    var right := if i == endBlock then Sub32(endOffset, 1) else Sub32(bs, 1);
    Add32(Sub32(right, PieceLeft(bs, offset, i)), 1)
  }

  lemma BlockMul(bs: nat, i: nat, j: nat)
    ensures i < j ==> bs * i + bs <= bs * j
    ensures bs * i == i * bs
  {
    if i < j {
      MulMono(i + 1, j, bs);
      assert (i + 1) * bs == bs * i + bs && j * bs == bs * j;
    }
  }

  lemma WrapLen(right: int, left: nat)
    requires -1 <= right < 0x1_0000 && 0 <= right - left + 1 && left < 0x1_0000
    ensures Add32(Sub32(Sub32(right + 1, 1), left), 1) == right - left + 1
  {
  }

  /** PieceIs with the products named: only linear facts are left. */
  lemma PieceLinear(bs: nat, so: nat, eo: nat, ps: nat, pe: nat, pi: nat, first: bool, last: bool, left: nat, n: int)
    requires so < bs && eo < bs && ps + so <= pe + eo
    requires if first then pi == ps else ps + bs <= pi
    requires if last then pi == pe else pi + bs <= pe
    requires left == (if first then so else 0) && n == (if last then eo else bs) - left
    ensures pi + left == Max(ps + so, Min(pi, pe + eo)) && 0 <= n && left + n <= bs
    ensures pi + left + n == Max(ps + so, Min(pi + bs, pe + eo))
  {
  }

  lemma DivParts(bs: nat, x: nat)
    requires bs > 0
    ensures x / bs >= 0 && x == bs * (x / bs) + x % bs && 0 <= x % bs < bs && x == x / bs * bs + x % bs
  {
    BlockMul(bs, x / bs, x / bs);
  }

  lemma PieceLenIs(bs: nat, offset: nat, end: nat, i: nat)
    requires 0 < bs <= 0x1000 && end < WORD_LIMIT
    requires PieceLeft(bs, offset, i) <= if i == end / bs then end % bs else bs
    ensures PieceLen(bs, offset, end, i) == (if i == end / bs then end % bs else bs) - PieceLeft(bs, offset, i)
  {
    DivParts(bs, end);
    DivParts(bs, offset);
    WrapLen((if i == end / bs then end % bs else bs) - 1, PieceLeft(bs, offset, i));
  }

  /** The piece starts at the cursor and ends where the next block's cursor stands; it is empty for the
      extra round at an end offset of 0. */
  lemma PieceIs(bs: nat, offset: nat, end: nat, i: nat)
    requires 0 < bs <= 0x1000 && offset <= end < WORD_LIMIT && offset / bs <= i <= end / bs
    ensures bs * i + PieceLeft(bs, offset, i) == Max(offset, Min(bs * i, end))
    ensures bs * i + PieceLeft(bs, offset, i) + PieceLen(bs, offset, end, i) == Max(offset, Min(bs * i + bs, end))
    ensures PieceLeft(bs, offset, i) + PieceLen(bs, offset, end, i) <= bs
  {
    DivParts(bs, offset);
    DivParts(bs, end);
    BlockMul(bs, offset / bs, i);
    BlockMul(bs, i, end / bs);
    PieceLinear(bs, offset % bs, end % bs, bs * (offset / bs), bs * (end / bs), bs * i, i == offset / bs, i == end / bs,
                PieceLeft(bs, offset, i), (if i == end / bs then end % bs else bs) - PieceLeft(bs, offset, i));
    PieceLenIs(bs, offset, end, i);
  }

  /** Behind the end of the file, in its last block, the length wraps: it is larger than any block. */
  lemma PieceBehind(bs: nat, offset: nat, end: nat)
    requires 0 < bs <= 0x1000 && end < offset < WORD_LIMIT
    ensures var i := BlockNo(bs, offset);
      i <= BlockNo(bs, end) ==>
        PieceLen(bs, offset, end, i) == WORD_LIMIT - (offset - end)
          && PieceLeft(bs, offset, i) + PieceLen(bs, offset, end, i) > bs
  {
    BlockNoIs(bs, offset);
    BlockNoIs(bs, end);
    DivParts(bs, end);
    DivParts(bs, offset);
    DivOrder(bs, end, offset);
  }

  lemma DivOrder(bs: nat, a: nat, b: nat)
    requires bs > 0 && a <= b
    ensures a / bs <= b / bs
  {
    DivRange(a, bs);
    DivRange(b, bs);
    MulMonoIf(b / bs + 1, a / bs, bs);
  }

  // ---- patching a block -----------------------------------------------------------------------------

  /** The block that starts at byte `base` of the file, after `buf` has been written at byte `offset`. */
  function Patch(was: seq<byte>, base: int, offset: nat, buf: seq<byte>): (r: seq<byte>)
    ensures |r| == |was|
    ensures forall k :: 0 <= k < |was| ==>
      r[k] == if offset <= base + k < offset + |buf| then buf[base + k - offset] else was[k]
  {
    seq(|was|, k requires 0 <= k < |was| => if offset <= base + k < offset + |buf| then buf[base + k - offset]
        else was[k])
  }

  /** What the loop body of ext2_write_inode_filedata does to one block. */
  lemma PatchSplice(was: seq<byte>, base: int, offset: nat, buf: seq<byte>, left: nat, n: nat, curr: nat)
    requires left + n <= |was| && curr + n <= |buf| && offset + curr == base + left
    requires base + left == Max(offset, Min(base, offset + |buf|))
             && base + left + n == Max(offset, Min(base + |was|, offset + |buf|))
    ensures Splice(was, left, buf[curr..curr + n]) == Patch(was, base, offset, buf)
  {
  }

  /** Blocks that the range does not reach keep their bytes. */
  lemma PatchOutside(was: seq<byte>, bs: nat, i: nat, offset: nat, buf: seq<byte>)
    requires bs > 0 && |was| == bs && !(BlockNo(bs, offset) <= i <= BlockNo(bs, offset + |buf|))
    ensures Patch(was, BlockByte(bs, i), offset, buf) == was
  {
    var end := offset + |buf|;
    BlockNoIs(bs, offset);
    BlockNoIs(bs, end);
    BlockByteIs(bs, i);
    assert offset == bs * (offset / bs) + offset % bs && end == bs * (end / bs) + end % bs;
    BlockMul(bs, i, offset / bs);
    BlockMul(bs, end / bs, i);
  }

  // ---- a file as a function from byte numbers to bytes -----------------------------------------------

  /** Byte `k` of file `ino`: byte k % bs of inode block k / bs. */
  ghost function FileByte(g: Geo, sh: Shape, v: Vol, inodes: Inodes, ino: nat, k: nat): int {
    if g.bs > 0 && sh.p > 0 && BlockNo(g.bs, k) < MaxBlocks(sh.p)
       && BitIn(g.bs, k) < |Content(v.disk, inodes, PathOf(sh.p, ino, BlockNo(g.bs, k)))|
    then Content(v.disk, inodes, PathOf(sh.p, ino, BlockNo(g.bs, k)))[BitIn(g.bs, k)] else 0
  }

  /** Every file's bytes, with `buf` written into file `ino` at `offset`. */
  ghost predicate BytesWritten(g: Geo, sh: Shape, v: Vol, inodes: Inodes, v': Vol, inodes': Inodes, ino: nat,
                               offset: nat, buf: seq<byte>)
    requires sh.p > 0
  {
    forall r :: IsPos(sh, r) && IsLeaf(r) ==>
      Content(v'.disk, inodes', r)
      == if r.ino == ino then Patch(Content(v.disk, inodes, r), BlockByte(g.bs, Block(sh, r)), offset, buf)
        else Content(v.disk, inodes, r)
  }

  /** The inode block number of a leaf position. */
  function Block(sh: Shape, r: Pos): nat {
    if r.root < ROOTS && IsLeaf(r) && IndexOf(sh.p, r) >= 0 then IndexOf(sh.p, r) else 0
  }

  lemma BlockOfPath(sh: Shape, ino: nat, i: nat)
    requires sh.p > 0 && i < MaxBlocks(sh.p) && ino in sh.files
    ensures IsPos(sh, PathOf(sh.p, ino, i)) && IsLeaf(PathOf(sh.p, ino, i)) && PathOf(sh.p, ino, i).ino == ino
    ensures Block(sh, PathOf(sh.p, ino, i)) == i
  {
    PathIndex(sh, ino, i);
  }

  lemma PathOfBlock(sh: Shape, r: Pos)
    requires sh.p > 0 && IsPos(sh, r) && IsLeaf(r)
    ensures Block(sh, r) < MaxBlocks(sh.p) && PathOf(sh.p, r.ino, Block(sh, r)) == r
  {
    IndexPath(sh, r);
  }

  lemma BlockInjective(sh: Shape, q: Pos, r: Pos)
    requires sh.p > 0 && IsPos(sh, q) && IsLeaf(q) && IsPos(sh, r) && IsLeaf(r)
    ensures q.ino == r.ino && Block(sh, q) == Block(sh, r) ==> q == r
  {
    PathOfBlock(sh, q);
    PathOfBlock(sh, r);
  }

  /** The pointer tree is a map from inode block numbers: after set_disk_block_number stores `d` for block `b` of file
      `ino`, get_disk_block_number finds `d` there and what it found before everywhere else, in every file. */
  lemma SetThenGet(g: Geo, sh: Shape, v: Vol, i: Inodes, v': Vol, i': Inodes, ino: nat, b: nat, d: u32, jno: nat,
                   k: nat)
    requires sh.p > 0 && b < MaxBlocks(sh.p) && k < MaxBlocks(sh.p) && ino in sh.files && jno in sh.files
    requires PointerSet(g, sh, v, i, v', i', PathOf(sh.p, ino, b), d)
    ensures At(v'.disk, i', PathOf(sh.p, jno, k)) == if jno == ino && k == b then d
            else At(v.disk, i, PathOf(sh.p, jno, k))
  {
    PointerSetMeans(g, sh, v, i, v', i', PathOf(sh.p, ino, b), d);
    BlockOfPath(sh, ino, b);
    BlockOfPath(sh, jno, k);
    PlacedLeaf(sh, v, i, v', i', PathOf(sh.p, ino, b), d, PathOf(sh.p, jno, k));
  }

  /** Content at a leaf is one block. */
  lemma ContentSize(g: Geo, sh: Shape, v: Vol, inodes: Inodes, q: Pos)
    requires Good(g, sh, v, inodes) && IsPos(sh, q)
    ensures |Content(v.disk, inodes, q)| == g.bs && BlockSize(g.bs) && sh.p > 0
  {
    Owned(g, sh, v, inodes);
    LayoutRadix(g, sh, |v.disk|, v.bgds);
    AtInRange(sh, v.disk, inodes, Used(g, v), q);
  }

  lemma BlockInReach(bs: nat, k: nat)
    requires BlockSize(bs) && k < WORD_LIMIT
    ensures k / bs >= 0 && k / bs < MaxBlocks(bs / 4) && k == bs * (k / bs) + k % bs && 0 <= k % bs < bs
  {
    SmallRadix(bs);
  }

  /** Byte `k` lies in an inode block that the tree can address. */
  lemma ByteBlock(g: Geo, sh: Shape, v: Vol, inodes: Inodes, ino: nat, k: nat)
    requires Good(g, sh, v, inodes) && ino in sh.files && k < WORD_LIMIT
    ensures g.bs > 0 && sh.p > 0 && BlockNo(g.bs, k) < MaxBlocks(sh.p)
    ensures k == BlockByte(g.bs, BlockNo(g.bs, k)) + BitIn(g.bs, k)
    ensures var q := PathOf(sh.p, ino, BlockNo(g.bs, k));
      && IsPos(sh, q) && IsLeaf(q) && q.ino == ino && Block(sh, q) == BlockNo(g.bs, k)
      && |Content(v.disk, inodes, q)| == g.bs
      && FileByte(g, sh, v, inodes, ino, k) == Content(v.disk, inodes, q)[BitIn(g.bs, k)]
  {
    Radix(g, sh, v, inodes);
    BlockInReach(g.bs, k);
    BlockNoIs(g.bs, k);
    GroupIs(g.bs, k);
    BlockByteIs(g.bs, k / g.bs);
    BlockOfPath(sh, ino, BlockNo(g.bs, k));
    ContentSize(g, sh, v, inodes, PathOf(sh.p, ino, BlockNo(g.bs, k)));
  }

  /** Byte `x` of inode block `i`. */
  lemma BlockHolds(g: Geo, sh: Shape, v: Vol, inodes: Inodes, ino: nat, i: nat, x: nat)
    requires Good(g, sh, v, inodes) && g.bs > 0 && sh.p > 0 && ino in sh.files && i < MaxBlocks(sh.p) && x < g.bs
    ensures var q := PathOf(sh.p, ino, i);
      && |Content(v.disk, inodes, q)| == g.bs
      && FileByte(g, sh, v, inodes, ino, BlockByte(g.bs, i) + x) == Content(v.disk, inodes, q)[x]
  {
    NumberIs(g.bs, i, 0);
    NumberIs(g.bs, i, x);
    SameNumber(g.bs, i, x, BlockByte(g.bs, i) + x);
    BlockOfPath(sh, ino, i);
    ContentSize(g, sh, v, inodes, PathOf(sh.p, ino, i));
  }

  /** Read-over-write, byte by byte: the range holds `buf`, every other byte of every file is what it was. */
  lemma ReadOverWrite(g: Geo, sh: Shape, v: Vol, inodes: Inodes, v': Vol, inodes': Inodes, ino: nat, offset: nat,
                      buf: seq<byte>, jno: nat, k: nat)
    requires Good(g, sh, v, inodes) && Good(g, sh, v', inodes') && sh.p > 0
    requires BytesWritten(g, sh, v, inodes, v', inodes', ino, offset, buf)
    requires jno in sh.files && k < WORD_LIMIT
    ensures FileByte(g, sh, v', inodes', jno, k)
         == if jno == ino && offset <= k < offset + |buf| then buf[k - offset] else FileByte(g, sh, v, inodes, jno, k)
  {
    ByteBlock(g, sh, v, inodes, jno, k);
    ByteBlock(g, sh, v', inodes', jno, k);
  }

  // ---- reading ---------------------------------------------------------------------------------------------

  /** The first `count` bytes of `now` are the bytes of file `ino` from `offset` on, the rest is `was`. */
  ghost predicate Fetched(g: Geo, sh: Shape, v: Vol, inodes: Inodes, ino: nat, offset: nat, count: nat, was: seq<byte>,
                          now: seq<byte>) {
    && |now| == |was|
    && (forall k :: 0 <= k < |now| ==>
        now[k] as int == if k < count then FileByte(g, sh, v, inodes, ino, offset + k) else was[k])
  }

  /** Copying the piece [left, left + n) of inode block `i` behind the first `count` bytes. */
  lemma FetchedNext(g: Geo, sh: Shape, v: Vol, inodes: Inodes, ino: nat, offset: nat, count: nat, was: seq<byte>,
                    now: seq<byte>, i: nat, left: nat, n: nat, block: seq<byte>)
    requires Good(g, sh, v, inodes) && g.bs > 0 && sh.p > 0 && ino in sh.files && i < MaxBlocks(sh.p)
    requires Fetched(g, sh, v, inodes, ino, offset, count, was, now) && count + n <= |was| && left + n <= g.bs
    requires offset + count == BlockByte(g.bs, i) + left && block == Content(v.disk, inodes, PathOf(sh.p, ino, i))
             && |block| == g.bs
    ensures Fetched(g, sh, v, inodes, ino, offset, count + n, was, Splice(now, count, block[left..left + n]))
  {
    var next := Splice(now, count, block[left..left + n]);
    forall k | count <= k < count + n ensures next[k] as int == FileByte(g, sh, v, inodes, ino, offset + k) {
      BlockHolds(g, sh, v, inodes, ino, i, left + k - count);
      assert BlockByte(g.bs, i) + (left + k - count) == offset + k;
    }
  }

  /** The value ext2_read_inode_filedata returns. */
  function BytesRead(isize: u32, offset: u32, size: u32): u32 {
    Sub32(Min(Add32(offset, size), isize), offset)
  }

  /** It is the number of bytes of the file in the range exactly when the range starts no later than the file ends;
      behind the end it wraps around to more than was asked for. */
  lemma BytesReadExact(isize: u32, offset: u32, size: u32)
    requires offset + size < WORD_LIMIT
    ensures offset <= isize <==> BytesRead(isize, offset, size) <= size
    ensures offset <= isize ==> BytesRead(isize, offset, size) == Min(offset + size, isize) - offset
  {
  }

  /** The last block of a range reaches past its end. */
  lemma LastBlockEnds(bs: nat, end: nat, endBlock: nat)
    requires bs > 0 && endBlock == BlockNo(bs, end)
    ensures BlockByte(bs, endBlock + 1) >= end
  {
    GroupIs(bs, end);
    NumberIs(bs, endBlock, 0);
  }

  // ---- what a write needs ----------------------------------------------------------------------------------

  /** The positions on the way to the inode blocks start, ..., i - 1 of a file. */
  function Ways(p: nat, ino: nat, start: nat, i: nat): set<Pos>
    decreases i
  {
    if p == 0 || i <= start || i > MaxBlocks(p) then {} else Ways(p, ino, start, i - 1) + Way(PathOf(p, ino, i - 1))
  }

  /** The positions on the way to the inode blocks that a transfer visits. */
  function RangeWays(bs: nat, p: nat, ino: nat, offset: nat, size: nat): set<Pos> {
    if bs == 0 then {} else Ways(p, ino, BlockNo(bs, offset), BlockNo(bs, offset + size) + 1)
  }

  lemma {:induction false} WaysIsPos(sh: Shape, ino: nat, start: nat, i: nat)
    requires ino in sh.files
    ensures forall q :: q in Ways(sh.p, ino, start, i) ==> IsPos(sh, q)
    decreases i
  {
    if sh.p > 0 && start < i <= MaxBlocks(sh.p) {
      WaysIsPos(sh, ino, start, i - 1);
      BlockOfPath(sh, ino, i - 1);
      WayIsPos(sh, PathOf(sh.p, ino, i - 1));
    }
  }

  lemma {:induction false} WaysMore(p: nat, ino: nat, start: nat, i: nat, j: nat)
    requires i <= j <= MaxBlocks(p)
    ensures Ways(p, ino, start, i) <= Ways(p, ino, start, j)
    decreases j
  {
    if i < j && start < j && p > 0 {
      WaysMore(p, ino, start, i, j - 1);
    }
  }

  lemma WaysNext(sh: Shape, ino: nat, start: nat, i: nat)
    requires sh.p > 0 && start <= i < MaxBlocks(sh.p) && ino in sh.files
    ensures Ways(sh.p, ino, start, i + 1) == Ways(sh.p, ino, start, i) + Way(PathOf(sh.p, ino, i))
    ensures forall q :: q in Way(PathOf(sh.p, ino, i)) ==> IsPos(sh, q)
  {
    BlockOfPath(sh, ino, i);
    WayIsPos(sh, PathOf(sh.p, ino, i));
  }

  ghost predicate ProvidedIs(sh: Shape, v: Vol, i: Inodes, v': Vol, i': Inodes, ps: set<Pos>, k: nat) {
    && Appeared(sh, v.disk, i, v'.disk, i', ps)
    && FreeCount(v'.bgds) + |Lacking(v.disk, i, ps)| == FreeCount(v.bgds)
  }

  /** Blocks have been provided at the missing positions of `ps`, one free block for each. */
  ghost predicate Provided(sh: Shape, v: Vol, i: Inodes, v': Vol, i': Inodes, ps: set<Pos>) {
    (if forall k: nat {:trigger Unfold(k)} {:trigger ProvidedIs(sh, v, i, v', i', ps, k)} ::
       ProvidedIs(sh, v, i, v', i', ps, k)
     then Clean else Corrupt).Clean?
  }

  lemma ProvidedMeans(sh: Shape, v: Vol, i: Inodes, v': Vol, i': Inodes, ps: set<Pos>)
    requires Provided(sh, v, i, v', i', ps)
    ensures ProvidedIs(sh, v, i, v', i', ps, 0) && Room(v, i, ps)
  {
    assert Unfold(0);
  }

  lemma ProvidedBoth(sh: Shape, v: Vol, i: Inodes, v1: Vol, i1: Inodes, v2: Vol, i2: Inodes, ps1: set<Pos>,
                     ps2: set<Pos>)
    requires Provided(sh, v, i, v1, i1, ps1) && Provided(sh, v1, i1, v2, i2, ps2)
    ensures Provided(sh, v, i, v2, i2, ps1 + ps2)
  {
    assert Unfold(0);
    LackingBoth(sh, v.disk, i, v1.disk, i1, ps1, ps2);
    AppearedBoth(sh, v.disk, i, v1.disk, i1, v2.disk, i2, ps1, ps2);
    assert ProvidedIs(sh, v, i, v2, i2, ps1 + ps2, 0);
  }

  /** Room for `ps2` after `ps1` has been provided. */
  lemma ProvidedRoom(sh: Shape, v: Vol, i: Inodes, v1: Vol, i1: Inodes, ps1: set<Pos>, ps2: set<Pos>)
    requires Provided(sh, v, i, v1, i1, ps1) && forall q :: q in ps2 ==> IsPos(sh, q)
    ensures Room(v1, i1, ps2) <==> Room(v, i, ps1 + ps2)
  {
    assert Unfold(0);
    LackingBoth(sh, v.disk, i, v1.disk, i1, ps1, ps2);
  }

  /** Room for everything that is lacking on the way to the inode blocks start, ..., end - 1. */
  ghost predicate RoomBlocks(sh: Shape, v: Vol, inodes: Inodes, ino: nat, start: nat, end: nat) {
    (if Room(v, inodes, Ways(sh.p, ino, start, end)) then Clean else Corrupt).Clean?
  }

  /** There is a free block for every block of a byte range, inode block or pointer block, that is missing. */
  ghost predicate RoomRange(g: Geo, sh: Shape, v: Vol, inodes: Inodes, ino: nat, offset: nat, size: nat) {
    (if Room(v, inodes, RangeWays(g.bs, sh.p, ino, offset, size)) then Clean else Corrupt).Clean?
  }

  lemma RoomRangeIs(g: Geo, sh: Shape, v: Vol, inodes: Inodes, ino: nat, offset: nat, size: nat, start: nat, end: nat,
                    base: nat)
    requires Spans(g.bs, sh.p, offset, size, start, end, base)
    ensures RoomRange(g, sh, v, inodes, ino, offset, size) <==> RoomBlocks(sh, v, inodes, ino, start, end + 1)
  {
    assert Unfold(0);
  }

  /** Steps that leave the trees and the counters in place change nothing about what is needed. */
  lemma ProvidedSame(sh: Shape, v: Vol, i: Inodes, v1: Vol, i1: Inodes, ps: set<Pos>)
    requires SameTree(sh, v.disk, i, v1.disk, i1) && FreeCount(v1.bgds) == FreeCount(v.bgds)
    requires forall q :: q in ps ==> IsPos(sh, q)
    ensures Provided(sh, v, i, v1, i1, {}) && (Room(v1, i1, ps) <==> Room(v, i, ps))
  {
    assert Unfold(0);
    assert Lacking(v.disk, i, {}) == {};
    assert Lacking(v1.disk, i1, ps) == Lacking(v.disk, i, ps);
    assert ProvidedIs(sh, v, i, v1, i1, {}, 0);
  }

  // ---- the write loop --------------------------------------------------------------------------------------

  /** Blocks [start, i) of file `ino` have been patched with `buf`, and blocks [start, j) have been provided. */
  ghost predicate PatchedIs(g: Geo, sh: Shape, v: Vol, inodes: Inodes, v': Vol, inodes': Inodes, ino: nat,
                            offset: nat, buf: seq<byte>, start: nat, i: nat, j: nat, k: nat)
  {
    && Good(g, sh, v', inodes') && |v'.disk| == |v.disk| && SameHeads(inodes, inodes', ino)
    && (forall r :: IsPos(sh, r) && IsLeaf(r) ==>
          Content(v'.disk, inodes', r)
          == if r.ino == ino && start <= Block(sh, r) < i
            then Patch(Content(v.disk, inodes, r), BlockByte(g.bs, Block(sh, r)), offset, buf)
             else Content(v.disk, inodes, r))
    && Provided(sh, v, inodes, v', inodes', Ways(sh.p, ino, start, j))
  }

  ghost predicate Patched(g: Geo, sh: Shape, v: Vol, inodes: Inodes, v': Vol, inodes': Inodes, ino: nat,
                          offset: nat, buf: seq<byte>, start: nat, i: nat, j: nat)
  {
    (if forall k: nat {:trigger Unfold(k)}
         {:trigger PatchedIs(g, sh, v, inodes, v', inodes', ino, offset, buf, start, i, j, k)} ::
       PatchedIs(g, sh, v, inodes, v', inodes', ino, offset, buf, start, i, j, k)
     then Clean else Corrupt).Clean?
  }

  lemma PatchedStart(g: Geo, sh: Shape, v: Vol, inodes: Inodes, ino: nat, offset: nat, buf: seq<byte>, start: nat)
    requires Good(g, sh, v, inodes)
    ensures Patched(g, sh, v, inodes, v, inodes, ino, offset, buf, start, start, start)
  {
    ProvidedSame(sh, v, inodes, v, inodes, {});
    assert PatchedIs(g, sh, v, inodes, v, inodes, ino, offset, buf, start, start, start, 0);
  }

  lemma SameHeadsTrans(i0: Inodes, i1: Inodes, i2: Inodes, ino: nat)
    requires SameHeads(i0, i1, ino) && SameHeads(i1, i2, ino)
    ensures SameHeads(i0, i2, ino)
  {
    forall jno | jno in i0 ensures SameHead(i0[jno], i2[jno]) {
      assert SameHead(i0[jno], i1[jno]) && SameHead(i1[jno], i2[jno]);
    }
  }

  lemma MappedProvided(g: Geo, sh: Shape, v: Vol, i: Inodes, v': Vol, i': Inodes, q: Pos, d: u32)
    requires Mapped(g, sh, v, i, v', i', q, d, |Lacking(v.disk, i, Way(q))|) && d != 0 && At(v.disk, i, q) == 0
    ensures Provided(sh, v, i, v', i', Way(q))
  {
    assert Unfold(0);
    WayIsPos(sh, q);
    assert Placed(sh, v, i, v', i', q, d);
    assert Appeared(sh, v.disk, i, v'.disk, i', Way(q));
    assert ProvidedIs(sh, v, i, v', i', Way(q), 0);
  }

  /** Allocating a missing block changes no byte. */
  lemma PatchedMapped(g: Geo, sh: Shape, v: Vol, inodes: Inodes, v1: Vol, i1: Inodes, v2: Vol, i2: Inodes, ino: nat,
                      offset: nat, buf: seq<byte>, start: nat, i: nat, d: u32)
    requires sh.p > 0 && start <= i < MaxBlocks(sh.p) && ino in sh.files
    requires Patched(g, sh, v, inodes, v1, i1, ino, offset, buf, start, i, i)
    requires At(v1.disk, i1, PathOf(sh.p, ino, i)) == 0 && d != 0
    requires Mapped(g, sh, v1, i1, v2, i2, PathOf(sh.p, ino, i), d, |Lacking(v1.disk, i1, Way(PathOf(sh.p, ino, i)))|)
    ensures Patched(g, sh, v, inodes, v2, i2, ino, offset, buf, start, i, i + 1)
  {
    var q := PathOf(sh.p, ino, i);
    var taken := |Lacking(v1.disk, i1, Way(q))|;
    BlockOfPath(sh, ino, i);
    assert PatchedIs(g, sh, v, inodes, v1, i1, ino, offset, buf, start, i, i, 0)
           && MappedIs(g, sh, v1, i1, v2, i2, q, d, taken, 0);
    SameHeadsTrans(inodes, i1, i2, ino);
    MappedProvided(g, sh, v1, i1, v2, i2, q, d);
    WaysNext(sh, ino, start, i);
    ProvidedBoth(sh, v, inodes, v1, i1, v2, i2, Ways(sh.p, ino, start, i), Way(q));
    assert PatchedIs(g, sh, v, inodes, v2, i2, ino, offset, buf, start, i, i + 1, 0);
  }

  lemma PatchedAlloced(g: Geo, sh: Shape, v: Vol, inodes: Inodes, v1: Vol, i1: Inodes, v2: Vol, i2: Inodes, ino: nat,
                       offset: nat, buf: seq<byte>, start: nat, i: nat, d: u32)
    requires sh.p > 0 && start <= i < MaxBlocks(sh.p) && ino in sh.files
    requires Patched(g, sh, v, inodes, v1, i1, ino, offset, buf, start, i, i)
    requires At(v1.disk, i1, PathOf(sh.p, ino, i)) == 0 && RoomWay(v1, i1, PathOf(sh.p, ino, i))
    requires Alloced(g, sh, v1, i1, v2, i2, PathOf(sh.p, ino, i), d)
    ensures Patched(g, sh, v, inodes, v2, i2, ino, offset, buf, start, i, i + 1)
  {
    AllocedMeans(g, sh, v1, i1, v2, i2, PathOf(sh.p, ino, i), d);
    PatchedMapped(g, sh, v, inodes, v1, i1, v2, i2, ino, offset, buf, start, i, d);
  }

  /** A block that exists needs nothing. */
  lemma PatchedMore(g: Geo, sh: Shape, v: Vol, inodes: Inodes, v1: Vol, i1: Inodes, ino: nat,
                    offset: nat, buf: seq<byte>, start: nat, i: nat)
    requires sh.p > 0 && start <= i < MaxBlocks(sh.p) && ino in sh.files && Good(g, sh, v1, i1)
    requires Patched(g, sh, v, inodes, v1, i1, ino, offset, buf, start, i, i)
             && At(v1.disk, i1, PathOf(sh.p, ino, i)) != 0
    ensures Patched(g, sh, v, inodes, v1, i1, ino, offset, buf, start, i, i + 1)
    ensures RoomWay(v1, i1, PathOf(sh.p, ino, i))
  {
    assert Unfold(0);
    var q := PathOf(sh.p, ino, i);
    BlockOfPath(sh, ino, i);
    Owned(g, sh, v1, i1);
    WayPresent(sh, v1.disk, i1, Used(g, v1), q);
    WayIsPos(sh, q);
    assert Lacking(v1.disk, i1, Way(q)) == {};
    assert ProvidedIs(sh, v1, i1, v1, i1, Way(q), 0);
    WaysNext(sh, ino, start, i);
    ProvidedBoth(sh, v, inodes, v1, i1, v1, i1, Ways(sh.p, ino, start, i), Way(q));
    assert PatchedIs(g, sh, v, inodes, v1, i1, ino, offset, buf, start, i, i + 1, 0);
  }

  /** Block `q` = inode block `i` has been patched on disk. */
  ghost predicate BlockPatched(g: Geo, sh: Shape, v: Vol, inodes: Inodes, v': Vol, q: Pos, i: nat, offset: nat,
                               buf: seq<byte>) {
    var n := At(v.disk, inodes, q);
    n < |v.disk| && v' == v.(disk := v.disk[n := Patch(Content(v.disk, inodes, q), BlockByte(g.bs, i), offset, buf)])
  }

  lemma PatchedGood(g: Geo, sh: Shape, v: Vol, inodes: Inodes, v1: Vol, i1: Inodes, ino: nat,
                    offset: nat, buf: seq<byte>, start: nat, i: nat, j: nat)
    requires Patched(g, sh, v, inodes, v1, i1, ino, offset, buf, start, i, j)
    ensures Good(g, sh, v1, i1) && RoomBlocks(sh, v, inodes, ino, start, j)
  {
    assert Unfold(0);
    ProvidedMeans(sh, v, inodes, v1, i1, Ways(sh.p, ino, start, j));
  }

  lemma PatchedProvided(g: Geo, sh: Shape, v: Vol, inodes: Inodes, v1: Vol, i1: Inodes, ino: nat,
                        offset: nat, buf: seq<byte>, start: nat, i: nat, j: nat)
    requires Patched(g, sh, v, inodes, v1, i1, ino, offset, buf, start, i, j)
    ensures Provided(sh, v, inodes, v1, i1, Ways(sh.p, ino, start, j))
  {
    assert PatchedIs(g, sh, v, inodes, v1, i1, ino, offset, buf, start, i, j, 0);
  }

  lemma RoomIn(sh: Shape, v: Vol, inodes: Inodes, v1: Vol, i1: Inodes, ps: set<Pos>, qs: set<Pos>, all: set<Pos>)
    requires Provided(sh, v, inodes, v1, i1, ps) && ps + qs <= all && forall q :: q in qs ==> IsPos(sh, q)
    ensures Room(v, inodes, all) ==> Room(v1, i1, qs)
  {
    ProvidedRoom(sh, v, inodes, v1, i1, ps, qs);
    LackingMore(v.disk, inodes, ps + qs, all);
  }

  /** If there is no room for block `i` now, there was not enough for the range before. */
  lemma PatchedRoom(g: Geo, sh: Shape, v: Vol, inodes: Inodes, v1: Vol, i1: Inodes, ino: nat,
                    offset: nat, buf: seq<byte>, start: nat, i: nat, end: nat)
    requires Patched(g, sh, v, inodes, v1, i1, ino, offset, buf, start, i, i)
    requires sh.p > 0 && start <= i < end <= MaxBlocks(sh.p) && ino in sh.files
    ensures RoomBlocks(sh, v, inodes, ino, start, end) ==> RoomWay(v1, i1, PathOf(sh.p, ino, i))
  {
    WaysNext(sh, ino, start, i);
    PatchedProvided(g, sh, v, inodes, v1, i1, ino, offset, buf, start, i, i);
    WaysMore(sh.p, ino, start, i + 1, end);
    RoomIn(sh, v, inodes, v1, i1, Ways(sh.p, ino, start, i), Way(PathOf(sh.p, ino, i)), Ways(sh.p, ino, start, end));
  }

  lemma ImageSize(g: Geo, sh: Shape, v: Vol, inodes: Inodes)
    requires Good(g, sh, v, inodes)
    ensures g.isize >= INODE_BYTES
  {
    Owned(g, sh, v, inodes);
    LayoutRadix(g, sh, |v.disk|, v.bgds);
  }

  /** Writing back the patched block `i`. */
  lemma PatchedData(g: Geo, sh: Shape, v: Vol, inodes: Inodes, v1: Vol, i1: Inodes, v2: Vol, ino: nat,
                    offset: nat, buf: seq<byte>, start: nat, i: nat)
    requires Patched(g, sh, v, inodes, v1, i1, ino, offset, buf, start, i, i + 1)
    requires sh.p > 0 && start <= i < MaxBlocks(sh.p) && ino in sh.files
    requires At(v1.disk, i1, PathOf(sh.p, ino, i)) != 0
    requires BlockPatched(g, sh, v1, i1, v2, PathOf(sh.p, ino, i), i, offset, buf)
    ensures Patched(g, sh, v, inodes, v2, i1, ino, offset, buf, start, i + 1, i + 1)
    ensures TableInodes(g, sh, v2) == TableInodes(g, sh, v1)
  {
    assert Unfold(0);
    var q := PathOf(sh.p, ino, i);
    BlockOfPath(sh, ino, i);
    ContentSize(g, sh, v1, i1, q);
    DataStep(g, sh, v1, i1, q, Patch(Content(v1.disk, i1, q), BlockByte(g.bs, i), offset, buf));
    PatchedNext(g, sh, v, inodes, v1, i1, v2, ino, q, offset, buf, start, i);
    SameTable(g, sh, v1, v2);
  }

  lemma PatchedNext(g: Geo, sh: Shape, v: Vol, inodes: Inodes, v1: Vol, i1: Inodes, v2: Vol, ino: nat, q: Pos,
                    offset: nat, buf: seq<byte>, start: nat, i: nat)
    requires Patched(g, sh, v, inodes, v1, i1, ino, offset, buf, start, i, i + 1)
    requires Good(g, sh, v2, i1) && |v2.disk| == |v1.disk| && v2.bgds == v1.bgds
             && SameTree(sh, v1.disk, i1, v2.disk, i1)
    requires sh.p > 0 && start <= i && IsPos(sh, q) && IsLeaf(q) && q.ino == ino && Block(sh, q) == i
    requires forall r :: IsPos(sh, r) && IsLeaf(r) ==>
      Content(v2.disk, i1, r) == if r == q then Patch(Content(v1.disk, i1, r), BlockByte(g.bs, i), offset, buf)
                                 else Content(v1.disk, i1, r)
    ensures Patched(g, sh, v, inodes, v2, i1, ino, offset, buf, start, i + 1, i + 1)
  {
    assert PatchedIs(g, sh, v, inodes, v1, i1, ino, offset, buf, start, i, i + 1, 0);
    forall r | IsPos(sh, r) && IsLeaf(r)
      ensures Content(v2.disk, i1, r)
        == if r.ino == ino && start <= Block(sh, r) < i + 1
          then Patch(Content(v.disk, inodes, r), BlockByte(g.bs, Block(sh, r)), offset, buf)
           else Content(v.disk, inodes, r)
    {
      BlockInjective(sh, q, r);
    }
    ProvidedSame(sh, v1, i1, v2, i1, {});
    ProvidedBoth(sh, v, inodes, v1, i1, v2, i1, Ways(sh.p, ino, start, i + 1), {});
    assert Ways(sh.p, ino, start, i + 1) + {} == Ways(sh.p, ino, start, i + 1);
    assert PatchedIs(g, sh, v, inodes, v2, i1, ino, offset, buf, start, i + 1, i + 1, 0);
  }

  /** When all blocks of the range have been visited, the file holds `buf` at `offset`. */
  lemma PatchedAll(g: Geo, sh: Shape, v: Vol, inodes: Inodes, v': Vol, inodes': Inodes, ino: nat, offset: nat,
                   buf: seq<byte>, start: nat, end: nat)
    requires g.bs > 0 && sh.p > 0 && Good(g, sh, v, inodes)
    requires start == BlockNo(g.bs, offset) && end == BlockNo(g.bs, offset + |buf|) + 1
    requires Patched(g, sh, v, inodes, v', inodes', ino, offset, buf, start, end, end)
    ensures BytesWritten(g, sh, v, inodes, v', inodes', ino, offset, buf)
  {
    assert Unfold(0);
    forall r | IsPos(sh, r) && IsLeaf(r)
      ensures Content(v'.disk, inodes', r)
        == if r.ino == ino then Patch(Content(v.disk, inodes, r), BlockByte(g.bs, Block(sh, r)), offset, buf)
          else Content(v.disk, inodes, r)
    {
      ContentSize(g, sh, v, inodes, r);
      if !(BlockNo(g.bs, offset) <= Block(sh, r) <= BlockNo(g.bs, offset + |buf|)) {
        PatchOutside(Content(v.disk, inodes, r), g.bs, Block(sh, r), offset, buf);
      }
    }
  }

  // ---- changing the size -------------------------------------------------------------------------------------

  function FileSize(raw: seq<byte>): u32 {
    if |raw| >= INODE_BYTES then Word(raw, SIZE_WORD) else 0
  }

  /** The images after `ino` has been given size `size`: no other word and no other inode changes. */
  ghost predicate Resized(inodes: Inodes, inodes': Inodes, ino: nat, size: nat) {
    && (forall jno :: jno in inodes ==> jno in inodes' && (jno != ino ==> inodes'[jno] == inodes[jno]))
    && (ino in inodes ==> ino in inodes' && ResizedImage(inodes[ino], inodes'[ino], size))
  }

  ghost predicate ResizedImage(raw: seq<byte>, raw': seq<byte>, size: nat) {
    && |raw'| == |raw| && FileSize(raw') == size
    && (forall k: nat ::
          4 * k + 4 <= |raw| && k != SIZE_WORD && k != SECTORS_WORD && !(BLOCKS_WORD <= k < BLOCKS_WORD + ROOTS)
          ==> Word(raw', k) == Word(raw, k))
  }

  ghost predicate SizeSetIs(g: Geo, sh: Shape, v: Vol, i: Inodes, v': Vol, i': Inodes, ino: nat, size: nat, k: nat) {
    && Good(g, sh, v, i) && Good(g, sh, v', i') && |v'.disk| == |v.disk| && g.bs > 0 && sh.p > 0
    && SameTree(sh, v.disk, i, v'.disk, i') && SameContent(sh, v.disk, i, v'.disk, i')
    && FreeCount(v'.bgds) == FreeCount(v.bgds) && ino in i && |i[ino]| >= INODE_BYTES && Resized(i, i', ino, size)
  }

  /** Only the size of `ino` has been changed. */
  ghost predicate SizeSet(g: Geo, sh: Shape, v: Vol, i: Inodes, v': Vol, i': Inodes, ino: nat, size: nat) {
    (if forall k: nat {:trigger Unfold(k)} {:trigger SizeSetIs(g, sh, v, i, v', i', ino, size, k)} ::
       SizeSetIs(g, sh, v, i, v', i', ino, size, k)
     then Clean else Corrupt).Clean?
  }

  lemma SizeKept(g: Geo, sh: Shape, v: Vol, i: Inodes, ino: nat)
    requires Good(g, sh, v, i) && ino in i && |i[ino]| == g.isize
    ensures SizeSet(g, sh, v, i, v, i, ino, FileSize(i[ino]))
  {
    assert Unfold(0);
    Radix(g, sh, v, i);
    ImageSize(g, sh, v, i);
    assert SizeSetIs(g, sh, v, i, v, i, ino, FileSize(i[ino]), 0);
  }

  lemma SizeRound(g: Geo, sh: Shape, v: Vol, inodes: Inodes, ino: u32, size: u32)
    requires Good(g, sh, v, inodes) && ino in sh.files && ino in inodes && |inodes[ino]| == g.isize >= INODE_BYTES
    ensures var raw := SetWord(inodes[ino], SIZE_WORD, size);
      var v2, i2 := WriteSlot(g, v, ino, raw), inodes[ino := raw];
      && SizeSet(g, sh, v, inodes, v2, i2, ino, size) && Good(g, sh, v2, i2) && FileSize(raw) == size
      && TableInodes(g, sh, v2) == TableInodes(g, sh, v)[ino := raw]
  {
    assert Unfold(0);
    var raw := SetWord(inodes[ino], SIZE_WORD, size);
    Radix(g, sh, v, inodes);
    TouchInode(g, sh, v, inodes, ino, SIZE_WORD, size);
    SlotGrown(g, sh, v, inodes[ino as nat := raw], ino, raw);
    assert SizeSetIs(g, sh, v, inodes, WriteSlot(g, v, ino, raw), inodes[ino as nat := raw], ino, size, 0);
  }

  // ---- the whole write -----------------------------------------------------------------------------------------

  ghost predicate WrittenIs(g: Geo, sh: Shape, v: Vol, inodes: Inodes, v': Vol, inodes': Inodes, ino: nat, offset: nat,
                            buf: seq<byte>, k: nat)
  {
    && Good(g, sh, v', inodes') && |v'.disk| == |v.disk| && sh.p > 0
    && BytesWritten(g, sh, v, inodes, v', inodes', ino, offset, buf)
    && ino in inodes && Resized(inodes, inodes', ino, Max(FileSize(inodes[ino]), offset + |buf|))
    && Provided(sh, v, inodes, v', inodes', RangeWays(g.bs, sh.p, ino, offset, |buf|))
  }

  /** `buf` has been written into file `ino` at byte `offset`: every byte of every file is what it should be, the size
      has grown as far as needed, the volume is sound, and exactly the missing blocks of the range were taken. */
  ghost predicate Written(g: Geo, sh: Shape, v: Vol, inodes: Inodes, v': Vol, inodes': Inodes, ino: nat, offset: nat,
                          buf: seq<byte>)
  {
    (if forall k: nat {:trigger Unfold(k)} {:trigger WrittenIs(g, sh, v, inodes, v', inodes', ino, offset, buf, k)} ::
       WrittenIs(g, sh, v, inodes, v', inodes', ino, offset, buf, k)
     then Clean else Corrupt).Clean?
  }

  lemma WrittenMeans(g: Geo, sh: Shape, v: Vol, inodes: Inodes, v': Vol, inodes': Inodes, ino: nat, offset: nat,
                     buf: seq<byte>)
    requires Written(g, sh, v, inodes, v', inodes', ino, offset, buf)
    ensures WrittenIs(g, sh, v, inodes, v', inodes', ino, offset, buf, 0)
  {
    assert Unfold(0);
  }

  /** Read-over-write for a finished write. */
  lemma WrittenByte(g: Geo, sh: Shape, v: Vol, inodes: Inodes, v': Vol, inodes': Inodes, ino: nat, offset: nat,
                    buf: seq<byte>, jno: nat, k: nat)
    requires Good(g, sh, v, inodes) && Written(g, sh, v, inodes, v', inodes', ino, offset, buf) && jno in sh.files
             && k < WORD_LIMIT
    ensures FileByte(g, sh, v', inodes', jno, k)
         == if jno == ino && offset <= k < offset + |buf| then buf[k - offset] else FileByte(g, sh, v, inodes, jno, k)
  {
    WrittenMeans(g, sh, v, inodes, v', inodes', ino, offset, buf);
    ReadOverWrite(g, sh, v, inodes, v', inodes', ino, offset, buf, jno, k);
  }

  /** The value ext2_read returns, which is the size asked for, is the number of bytes read exactly if the range does
      not reach behind the end of the file. */
  lemma ReadValueExact(isize: u32, offset: u32, size: u32)
    requires offset + size < WORD_LIMIT
    ensures size == BytesRead(isize, offset, size) <==> offset + size <= isize
  {
  }

  /** What a read finds after a write: `buf` inside the written range, the bytes of before everywhere else. */
  lemma ReadAfterWrite(g: Geo, sh: Shape, v: Vol, inodes: Inodes, v': Vol, inodes': Inodes, ino: nat, offset: nat,
                       buf: seq<byte>, jno: nat, start: nat, count: nat, was: seq<byte>, now: seq<byte>)
    requires Good(g, sh, v, inodes) && Written(g, sh, v, inodes, v', inodes', ino, offset, buf)
    requires jno in sh.files && start + count < WORD_LIMIT
    requires Fetched(g, sh, v', inodes', jno, start, count, was, now) && count <= |was|
    ensures |now| == |was| && forall k :: 0 <= k < count ==>
      now[k] as int == if jno == ino && offset <= start + k < offset + |buf| then buf[start + k - offset]
                       else FileByte(g, sh, v, inodes, jno, start + k)
  {
    forall k | 0 <= k < count
      ensures now[k] as int == if jno == ino && offset <= start + k < offset + |buf| then buf[start + k - offset]
                               else FileByte(g, sh, v, inodes, jno, start + k)
    {
      WrittenByte(g, sh, v, inodes, v', inodes', ino, offset, buf, jno, start + k);
    }
  }

  ghost predicate SpansIs(bs: nat, p: nat, offset: nat, size: nat, start: nat, end: nat, base: nat, k: nat) {
    && bs > 0 && p > 0 && start == BlockNo(bs, offset) && end == BlockNo(bs, offset + size)
    && start <= end < MaxBlocks(p) && end < WORD_LIMIT
    && base == BlockByte(bs, start) && offset == Max(offset, Min(base, offset + size))
  }

  /** A transfer of `size` bytes visits the inode blocks start, ..., end, and `base` is the first byte of the first
      one. */
  ghost predicate Spans(bs: nat, p: nat, offset: nat, size: nat, start: nat, end: nat, base: nat) {
    (if forall k: nat {:trigger Unfold(k)} {:trigger SpansIs(bs, p, offset, size, start, end, base, k)} ::
       SpansIs(bs, p, offset, size, start, end, base, k)
     then Clean else Corrupt).Clean?
  }

  lemma SpansMeans(bs: nat, p: nat, offset: nat, size: nat, start: nat, end: nat, base: nat)
    requires Spans(bs, p, offset, size, start, end, base)
    ensures SpansIs(bs, p, offset, size, start, end, base, 0)
  {
    assert Unfold(0);
  }

  /** All blocks of a byte range lie within reach of the tree, and the first starts no later than the range. */
  lemma RangeInReach(bs: nat, offset: nat, size: nat) returns (base: nat)
    requires BlockSize(bs) && offset + size < WORD_LIMIT
    ensures Spans(bs, bs / 4, offset, size, BlockNo(bs, offset), BlockNo(bs, offset + size), base)
  {
    assert Unfold(0);
    BlockInReach(bs, offset);
    BlockInReach(bs, offset + size);
    BlockNoIs(bs, offset);
    BlockNoIs(bs, offset + size);
    BlockByteIs(bs, offset / bs);
    BlockMul(bs, (offset + size) / bs, offset / bs);
    base := BlockByte(bs, offset / bs);
    assert SpansIs(bs, bs / 4, offset, size, BlockNo(bs, offset), BlockNo(bs, offset + size), base, 0);
  }

  lemma SizeSetMeans(g: Geo, sh: Shape, v: Vol, i: Inodes, v': Vol, i': Inodes, ino: nat, size: nat)
    requires SizeSet(g, sh, v, i, v', i', ino, size)
    ensures SizeSetIs(g, sh, v, i, v', i', ino, size, 0)
  {
    assert Unfold(0);
  }

  /** Setting the size changes nothing about the room a write needs. */
  lemma SizeSetRoom(g: Geo, sh: Shape, v: Vol, i: Inodes, v1: Vol, i1: Inodes, ino: nat, size: nat, offset: nat, n: nat)
    requires SizeSet(g, sh, v, i, v1, i1, ino, size) && ino in sh.files
    ensures RoomRange(g, sh, v1, i1, ino, offset, n) <==> RoomRange(g, sh, v, i, ino, offset, n)
  {
    assert Unfold(0);
    SizeSetMeans(g, sh, v, i, v1, i1, ino, size);
    WaysIsPos(sh, ino, BlockNo(g.bs, offset), BlockNo(g.bs, offset + n) + 1);
    ProvidedSame(sh, v, i, v1, i1, RangeWays(g.bs, sh.p, ino, offset, n));
  }

  lemma GrownSize(g: Geo, sh: Shape, v: Vol, i: Inodes, v1: Vol, i1: Inodes, i2: Inodes, ino: nat, size: nat)
    requires SizeSet(g, sh, v, i, v1, i1, ino, size) && SameHeads(i1, i2, ino)
    ensures ino in i && Resized(i, i2, ino, size)
  {
    assert Unfold(0);
    SizeSetMeans(g, sh, v, i, v1, i1, ino, size);
    assert SameHead(i1[ino], i2[ino]);
    assert Word(i2[ino], SIZE_WORD) == Word(i1[ino], SIZE_WORD);
  }

  lemma ProvidedLater(g: Geo, sh: Shape, v: Vol, i: Inodes, v1: Vol, i1: Inodes, v2: Vol, i2: Inodes, ino: nat,
                      size: nat, ps: set<Pos>)
    requires SizeSet(g, sh, v, i, v1, i1, ino, size) && Provided(sh, v1, i1, v2, i2, ps)
    ensures Provided(sh, v, i, v2, i2, ps)
  {
    SizeSetMeans(g, sh, v, i, v1, i1, ino, size);
    ProvidedSame(sh, v, i, v1, i1, {});
    ProvidedBoth(sh, v, i, v1, i1, v2, i2, {}, ps);
    assert {} + ps == ps;
  }

  lemma PatchedHeads(g: Geo, sh: Shape, v: Vol, inodes: Inodes, v1: Vol, i1: Inodes, ino: nat,
                     offset: nat, buf: seq<byte>, start: nat, i: nat, j: nat)
    requires Patched(g, sh, v, inodes, v1, i1, ino, offset, buf, start, i, j)
    ensures SameHeads(inodes, i1, ino) && |v1.disk| == |v.disk|
  {
    assert Unfold(0);
  }

  lemma SizedWritten(g: Geo, sh: Shape, v: Vol, i: Inodes, v1: Vol, i1: Inodes, v2: Vol, i2: Inodes, ino: nat,
                     size: nat, offset: nat, buf: seq<byte>)
    requires SizeSet(g, sh, v, i, v1, i1, ino, size) && sh.p > 0
             && BytesWritten(g, sh, v1, i1, v2, i2, ino, offset, buf)
    ensures BytesWritten(g, sh, v, i, v2, i2, ino, offset, buf) && |v1.disk| == |v.disk|
  {
    assert Unfold(0);
    SizeSetMeans(g, sh, v, i, v1, i1, ino, size);
  }

  /** Growing the size first and patching all blocks of the range afterwards is the write. */
  lemma WriteDone(g: Geo, sh: Shape, v: Vol, i: Inodes, v1: Vol, i1: Inodes, v2: Vol, i2: Inodes, ino: nat,
                  offset: nat, buf: seq<byte>, start: nat, end: nat, base: nat, size: nat)
    requires ino in i && size == Max(FileSize(i[ino]), offset + |buf|) && SizeSet(g, sh, v, i, v1, i1, ino, size)
    requires Spans(g.bs, sh.p, offset, |buf|, start, end, base)
    requires Patched(g, sh, v1, i1, v2, i2, ino, offset, buf, start, end + 1, end + 1)
    ensures Written(g, sh, v, i, v2, i2, ino, offset, buf)
  {
    SizeSetMeans(g, sh, v, i, v1, i1, ino, size);
    SpansMeans(g.bs, sh.p, offset, |buf|, start, end, base);
    PatchedAll(g, sh, v1, i1, v2, i2, ino, offset, buf, start, end + 1);
    PatchedGood(g, sh, v1, i1, v2, i2, ino, offset, buf, start, end + 1, end + 1);
    PatchedHeads(g, sh, v1, i1, v2, i2, ino, offset, buf, start, end + 1, end + 1);
    GrownSize(g, sh, v, i, v1, i1, i2, ino, size);
    SizedWritten(g, sh, v, i, v1, i1, v2, i2, ino, size, offset, buf);
    PatchedLater(g, sh, v, i, v1, i1, v2, i2, ino, size, offset, buf, start, end + 1);
    assert WrittenIs(g, sh, v, i, v2, i2, ino, offset, buf, 0);
  }

  lemma PatchedLater(g: Geo, sh: Shape, v: Vol, i: Inodes, v1: Vol, i1: Inodes, v2: Vol, i2: Inodes, ino: nat,
                     size: nat, offset: nat, buf: seq<byte>, start: nat, j: nat)
    requires SizeSet(g, sh, v, i, v1, i1, ino, size) && Patched(g, sh, v1, i1, v2, i2, ino, offset, buf, start, j, j)
    ensures Provided(sh, v, i, v2, i2, Ways(sh.p, ino, start, j))
  {
    PatchedProvided(g, sh, v1, i1, v2, i2, ino, offset, buf, start, j, j);
    ProvidedLater(g, sh, v, i, v1, i1, v2, i2, ino, size, Ways(sh.p, ino, start, j));
  }
}
