/** The block pointer tree of an ext2 inode (src/ext2.c:84-135, 420-488), seen as a map
    from positions to block numbers.

    A position is a root slot of inode->blocks followed by the word indices taken inside
    the pointer blocks; an inode block number is the mixed-radix code of a full-depth
    position. A block number 0 means "not allocated". */
module PointerTree {
  import opened Machine

  const DIRECT_BLOCKS := 12
  const ROOTS := 15

  /** Word index of blocks[0] inside the packed ext2_inode_s, and the bytes of that struct. */
  const BLOCKS_WORD := 10
  const INODE_BYTES := 128

  /** Word indices of size and num_sectors. */
  const SIZE_WORD := 1
  const SECTORS_WORD := 7

  type Disk = seq<seq<byte>>
  type Inodes = map<nat, seq<byte>>

  datatype Pos = Pos(ino: nat, root: nat, digits: seq<nat>)

  /** What is fixed about a volume: `p` words per block, the inodes that are files, and
      the blocks that belong to no file. */
  datatype Shape = Shape(p: nat, files: set<nat>, meta: set<nat>)

  function Depth(root: nat): nat {
    if root < DIRECT_BLOCKS then 0 else root - DIRECT_BLOCKS + 1
  }

  ghost predicate IsPos(sh: Shape, q: Pos) {
    && q.ino in sh.files && q.root < ROOTS && |q.digits| <= Depth(q.root)
    && forall k :: 0 <= k < |q.digits| ==> q.digits[k] < sh.p
  }

  predicate IsLeaf(q: Pos) {
    |q.digits| == Depth(q.root)
  }

  function Parent(q: Pos): Pos
    requires q.digits != []
  {
    q.(digits := q.digits[..|q.digits| - 1])
  }

  function LastDigit(q: Pos): nat
    requires q.digits != []
  {
    q.digits[|q.digits| - 1]
  }

  // ---- mixed radix -------------------------------------------------------------

  function MaxBlocks(p: nat): nat {
    DIRECT_BLOCKS + p + p * p + p * p * p
  }

  /** The position of inode block `i`: the case analysis of get_disk_block_number. */
  function PathOf(p: nat, ino: nat, i: nat): Pos
    requires p > 0 && i < MaxBlocks(p)
  {
    var a := i - DIRECT_BLOCKS;
    if a < 0 then Pos(ino, i, []) else
    var b := a - p;
    if b < 0 then Pos(ino, 12, [a]) else
    var c := b - p * p;
    if c < 0 then
      assert b / p >= 0 && b - b / p * p >= 0 by { DivRange(b, p); }
      Pos(ino, 13, [b / p, b - b / p * p])
    else
      Pos(ino, 14, Split3(p, c))
  }

  /** The digits e, f, g of the triple-indirect case. */
  function Split3(p: nat, c: nat): (r: seq<nat>)
    requires p > 0
    ensures |r| == 3
  {
    assert p * p > 0 by { MulPos(p, p); }
    var e := c / (p * p);
    assert e >= 0 && c - e * (p * p) >= 0 by { DivRange(c, p * p); }
    var r := c - e * (p * p);
    assert r / p >= 0 && r - r / p * p >= 0 by { DivRange(r, p); }
    [e, r / p, r - r / p * p]
  }

  /** The inode block number a full-depth position stands for. */
  function IndexOf(p: nat, q: Pos): int
    requires q.root < ROOTS && IsLeaf(q)
  {
    if q.root < DIRECT_BLOCKS then q.root
    else if q.root == 12 then DIRECT_BLOCKS + q.digits[0]
    else if q.root == 13 then DIRECT_BLOCKS + p + q.digits[0] * p + q.digits[1]
    else DIRECT_BLOCKS + p + p * p + q.digits[0] * (p * p) + q.digits[1] * p + q.digits[2]
  }

  /** Every inode block number names one full-depth position and is named by it. */
  lemma PathIndex(sh: Shape, ino: nat, i: nat)
    requires sh.p > 0 && i < MaxBlocks(sh.p) && ino in sh.files
    ensures var q := PathOf(sh.p, ino, i);
      && IsPos(sh, q) && IsLeaf(q) && q.ino == ino && IndexOf(sh.p, q) == i
  {
    var p := sh.p;
    var b := i - DIRECT_BLOCKS - p;
    if 0 <= b < p * p {
      DivRange(b, p);
      DivBelow(b, p, p);
    } else if b >= p * p {
      Split3Code(p, b - p * p);
    }
  }

  lemma Split3Code(p: nat, c: nat)
    requires p > 0 && c < p * p * p
    ensures var d := Split3(p, c);
      d[0] < p && d[1] < p && d[2] < p && d[0] * (p * p) + d[1] * p + d[2] == c
  {
    assert p * p * p == p * (p * p);
    MulPos(p, p);
    DivRange(c, p * p);
    DivBelow(c, p * p, p);
    var r := c - c / (p * p) * (p * p);
    DivRange(r, p);
    DivBelow(r, p, p);
  }

  lemma TwoDigits(p: nat, x: nat, y: nat)
    requires x < p && y < p
    ensures x * p + y < p * p
    ensures (x * p + y) / p == x && (x * p + y) - x * p == y
  {
    MulMono(x + 1, p, p);
    assert (x + 1) * p == x * p + p;
    DivUnique(x, y, p);
  }

  lemma ThreeDigits(p: nat, x: nat, y: nat, z: nat)
    requires x < p && y < p && z < p
    ensures var c := x * (p * p) + y * p + z;
      p * p > 0 && c < p * p * p && c / (p * p) == x && c - x * (p * p) == y * p + z
  {
    MulPos(p, p);
    TwoDigits(p, y, z);
    MulMono(x + 1, p, p * p);
    assert (x + 1) * (p * p) == x * (p * p) + p * p;
    assert p * (p * p) == p * p * p;
    DivUnique(x, y * p + z, p * p);
  }

  lemma PathOfTwo(p: nat, ino: nat, x: nat, y: nat)
    requires x < p && y < p
    ensures var i := DIRECT_BLOCKS + p + x * p + y;
      i < MaxBlocks(p) && PathOf(p, ino, i) == Pos(ino, 13, [x, y])
  {
    TwoDigits(p, x, y);
    assert p * p * p >= 0;
  }

  lemma PathOfThree(p: nat, ino: nat, x: nat, y: nat, z: nat)
    requires x < p && y < p && z < p
    ensures var c := x * (p * p) + y * p + z;
      0 <= c < p * p * p && Split3(p, c) == [x, y, z]
  {
    TwoDigits(p, y, z);
    ThreeDigits(p, x, y, z);
    var c, r := x * (p * p) + y * p + z, y * p + z;
    var e := c / (p * p);
    assert e == x && c - e * (p * p) == r && r / p == y;
  }

  /** Full-depth positions are exactly the codes of inode block numbers. */
  lemma IndexPath(sh: Shape, q: Pos)
    requires sh.p > 0 && IsPos(sh, q) && IsLeaf(q)
    ensures 0 <= IndexOf(sh.p, q) < MaxBlocks(sh.p) && PathOf(sh.p, q.ino, IndexOf(sh.p, q)) == q
  {
    var p, d := sh.p, q.digits;
    assert p * p >= 0 && p * p * p >= 0;
    if q.root < DIRECT_BLOCKS {
      assert d == [];
    } else if q.root == 12 {
      assert d == [d[0]];
    } else if q.root == 13 {
      assert d == [d[0], d[1]];
      PathOfTwo(p, q.ino, d[0], d[1]);
    } else {
      assert d == [d[0], d[1], d[2]];
      PathOfThree(p, q.ino, d[0], d[1], d[2]);
    }
  }

  // ---- the arithmetic of the code --------------------------------------------------------------

  /** Which slot and which words lead to a block. */
  datatype Route = Direct(slot: nat) | Single(a: int) | Double(c: int, d: int) | Triple(e: int, f: int, g: int) | TooBig

  /** The case analysis of get_disk_block_number and set_disk_block_number, in their s32int variables. */
  function RouteOf(p: u32, inodeBlock: u32): Route {
    var a := S32(inodeBlock - DIRECT_BLOCKS);
    if a < 0 then Direct(inodeBlock) else
    var b := S32(a - p);
    if b < 0 then Single(a) else
    var c := S32(b - p * p);
    if c < 0 then (if p == 0 then TooBig else Double(b / p, b - b / p * p)) else
    var d := S32(c - p * p * p);
    if d >= 0 || p * p == 0 then TooBig else
    var e := c / (p * p);
    Triple(e, (c - e * p * p) / p, c - e * p * p - (c - e * p * p) / p * p)
  }

  predicate RouteValid(p: nat, r: Route) {
    match r
    case Direct(s) => s < DIRECT_BLOCKS
    case Single(a) => 0 <= a < p
    case Double(c, d) => 0 <= c < p && 0 <= d < p
    case Triple(e, f, g) => 0 <= e < p && 0 <= f < p && 0 <= g < p
    case TooBig => false
  }

  function RoutePos(ino: nat, r: Route): Pos
    requires exists p: nat :: RouteValid(p, r)
  {
    match r
    case Direct(s) => Pos(ino, s, [])
    case Single(a) => Pos(ino, 12, [a])
    case Double(c, d) => Pos(ino, 13, [c, d])
    case Triple(e, f, g) => Pos(ino, 14, [e, f, g])
  }

  /** Within s32int the code computes the digits of the inode block number. */
  lemma RouteIsPath(p: u32, ino: nat, inodeBlock: u32)
    requires p > 0 && inodeBlock < MaxBlocks(p) < 0x8000_0000
    ensures var r := RouteOf(p, inodeBlock);
      RouteValid(p, r) && RoutePos(ino, r) == PathOf(p, ino, inodeBlock)
  {
    assert 0 <= p * p && 0 <= p * p * p;
    MulPos(p, p);
    var b := inodeBlock - DIRECT_BLOCKS - p;
    if 0 <= b < p * p {
      DivRange(b, p);
      DivBelow(b, p, p);
    } else if b >= p * p {
      RouteTriple(p, b - p * p);
    }
  }

  lemma RouteTriple(p: nat, c: nat)
    requires p > 0 && c < p * p * p
    ensures p * p > 0
    ensures var e := c / (p * p);
      var f := (c - e * p * p) / p;
      var g := c - e * p * p - f * p;
      0 <= e < p && 0 <= f < p && 0 <= g < p && Split3(p, c) == [e, f, g]
  {
    MulPos(p, p);
    Split3Code(p, c);
    var e := c / (p * p);
    assert e * p * p == e * (p * p);
  }
}
