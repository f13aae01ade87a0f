/** Who owns which disk block. Every nonzero pointer of every file's tree names a block that
    no other pointer names, that is marked as used, and that is none of the volume's own
    (metadata) blocks; blocks that are not marked hold zeros. */
module OwnedTree {
  import opened Machine
  import opened PointerTree

  /** Word `k` of block `n`. */
  function Cell(disk: Disk, n: nat, k: nat): u32 {
    if n < |disk| && 4 * k + 4 <= |disk[n]| then Word(disk[n], k) else 0
  }

  /** inode->blocks[root] of an inode image. */
  function RootCell(inodes: Inodes, ino: nat, root: nat): u32 {
    if ino in inodes && 4 * (BLOCKS_WORD + root) + 4 <= |inodes[ino]| then Word(inodes[ino], BLOCKS_WORD + root) else 0
  }

  /** The block number found at a position. */
  function At(disk: Disk, inodes: Inodes, q: Pos): u32
    decreases |q.digits|
  {
    if q.digits == [] then RootCell(inodes, q.ino, q.root)
    else Cell(disk, At(disk, inodes, Parent(q)), LastDigit(q))
  }

  ghost predicate WellFormed(sh: Shape, disk: Disk, inodes: Inodes) {
    && sh.p > 0 && |disk| > 0
    && (forall n :: 0 <= n < |disk| ==> |disk[n]| == 4 * sh.p)
    && (forall ino :: ino in sh.files ==> ino in inodes && |inodes[ino]| >= INODE_BYTES)
  }

  ghost predicate Inv(sh: Shape, disk: Disk, inodes: Inodes, used: set<nat>) {
    && WellFormed(sh, disk, inodes)
    && AllZero(disk[0]) && 0 in sh.meta && sh.meta <= used
    && (forall n :: n in used ==> n < |disk|)
    && (forall n :: 0 <= n < |disk| && n !in used ==> AllZero(disk[n]))
    && (forall q :: IsPos(sh, q) && At(disk, inodes, q) != 0 ==>
        At(disk, inodes, q) in used && At(disk, inodes, q) !in sh.meta)
    && (forall q, r :: IsPos(sh, q) && IsPos(sh, r) && q != r && At(disk, inodes, q) != 0 ==>
        At(disk, inodes, q) != At(disk, inodes, r))
  }

  /** A block that is read as a pointer block: block 0 stands in for every missing one. */
  ghost predicate IsPointerBlock(sh: Shape, disk: Disk, inodes: Inodes, n: nat) {
    n == 0 || exists q :: IsPos(sh, q) && !IsLeaf(q) && At(disk, inodes, q) == n
  }

  lemma ZeroCell(disk: Disk, n: nat, k: nat)
    requires n < |disk| ==> AllZero(disk[n])
    ensures Cell(disk, n, k) == 0
  {
  }

  lemma ParentIsPos(sh: Shape, q: Pos)
    requires IsPos(sh, q) && q.digits != []
    ensures IsPos(sh, Parent(q)) && !IsLeaf(Parent(q)) && LastDigit(q) < sh.p
  {
  }

  function Child(q: Pos, x: nat): Pos {
    q.(digits := q.digits + [x])
  }

  lemma ChildPos(sh: Shape, q: Pos, x: nat)
    requires IsPos(sh, q) && x < sh.p && |q.digits| < Depth(q.root)
    ensures IsPos(sh, Child(q, x)) && Parent(Child(q, x)) == q && LastDigit(Child(q, x)) == x
  {
    assert Child(q, x).digits[..|q.digits|] == q.digits;
  }

  lemma ChildIs(ino: nat, root: nat, e: nat, f: nat)
    ensures Child(Pos(ino, root, []), e) == Pos(ino, root, [e])
    ensures Child(Pos(ino, root, [e]), f) == Pos(ino, root, [e, f])
  {
  }

  lemma ParentChild(q: Pos)
    requires q.digits != []
    ensures Child(Parent(q), LastDigit(q)) == q
  {
  }

  /** The pointer block that holds the last pointer of a route, and the word in it. */
  lemma RouteParent(p: nat, ino: nat, r: Route)
    requires RouteValid(p, r) && !r.Direct?
    ensures var q := RoutePos(ino, r);
      q.digits != [] && (match r
        case Single(a) => Parent(q) == Pos(ino, 12, []) && LastDigit(q) == a
        case Double(c, d) => Parent(q) == Pos(ino, 13, [c]) && LastDigit(q) == d
        case Triple(e, f, g) => Parent(q) == Pos(ino, 14, [e, f]) && LastDigit(q) == g)
  {
  }

  /** The pointer blocks that the walkers read on a route. */
  lemma RouteAbove(p: nat, ino: nat, r: Route)
    requires RouteValid(p, r)
    ensures Above(RoutePos(ino, r)) == (match r
      case Direct(_) => {}
      case Single(a) => {Pos(ino, 12, [])}
      case Double(c, d) => {Pos(ino, 13, [])} + {Pos(ino, 13, [c])}
      case Triple(e, f, g) => {Pos(ino, 14, [])} + {Pos(ino, 14, [e])} + {Pos(ino, 14, [e, f])})
  {
    match r
    case Direct(_) =>
    case Single(a) =>
      WayRoot(ino, 12);
      assert Parent(RoutePos(ino, r)) == Pos(ino, 12, []);
    case Double(c, d) =>
      WayRoot(ino, 13);
      assert Parent(RoutePos(ino, r)) == Pos(ino, 13, [c]) && Parent(Pos(ino, 13, [c])) == Pos(ino, 13, []);
      assert Way(Pos(ino, 13, [c])) == Way(Pos(ino, 13, [])) + {Pos(ino, 13, [c])};
    case Triple(e, f, g) =>
      WayRoot(ino, 14);
      assert Parent(RoutePos(ino, r)) == Pos(ino, 14, [e, f]) && Parent(Pos(ino, 14, [e, f])) == Pos(ino, 14, [e]);
      assert Parent(Pos(ino, 14, [e])) == Pos(ino, 14, []);
      assert Way(Pos(ino, 14, [e])) == Way(Pos(ino, 14, [])) + {Pos(ino, 14, [e])};
      assert Way(Pos(ino, 14, [e, f])) == Way(Pos(ino, 14, [e])) + {Pos(ino, 14, [e, f])};
  }

  lemma RouteIsPos(sh: Shape, ino: nat, r: Route)
    requires RouteValid(sh.p, r) && ino in sh.files
    ensures IsPos(sh, RoutePos(ino, r)) && IsLeaf(RoutePos(ino, r))
  {
  }

  lemma WayRoot(ino: nat, root: nat)
    ensures Way(Pos(ino, root, [])) == {Pos(ino, root, [])}
  {
  }

  /** Rewriting blocks that nobody reads as pointer blocks leaves the whole tree in place. */
  lemma {:induction false} TreeFrame(sh: Shape, disk: Disk, inodes: Inodes, disk': Disk, q: Pos)
    requires IsPos(sh, q) && |disk'| == |disk|
    requires forall n :: 0 <= n < |disk| && IsPointerBlock(sh, disk, inodes, n) ==> disk'[n] == disk[n]
    ensures At(disk', inodes, q) == At(disk, inodes, q)
    decreases |q.digits|
  {
    if q.digits != [] {
      ParentIsPos(sh, q);
      TreeFrame(sh, disk, inodes, disk', Parent(q));
      assert IsPointerBlock(sh, disk, inodes, At(disk, inodes, Parent(q)));
    }
  }

  // ---- storing a pointer -------------------------------------------------------------

  /** The pointer at `q` can be written: it is a root slot or its pointer block exists. */
  ghost predicate Reachable(disk: Disk, inodes: Inodes, q: Pos) {
    q.digits != [] ==> At(disk, inodes, Parent(q)) != 0
  }

  function StoreDisk(disk: Disk, inodes: Inodes, q: Pos, v: u32): Disk {
    if q.digits == [] then disk
    else
      var n := At(disk, inodes, Parent(q));
      if n < |disk| && 4 * LastDigit(q) + 4 <= |disk[n]| then disk[n := SetWord(disk[n], LastDigit(q), v)] else disk
  }

  function StoreInodes(inodes: Inodes, q: Pos, v: u32): Inodes {
    if q.digits == [] && q.ino in inodes && 4 * (BLOCKS_WORD + q.root) + 4 <= |inodes[q.ino]|
    then inodes[q.ino := SetWord(inodes[q.ino], BLOCKS_WORD + q.root, v)]
    else inodes
  }

  ghost predicate Unowned(sh: Shape, disk: Disk, inodes: Inodes, v: nat) {
    v != 0 && forall q :: IsPos(sh, q) ==> At(disk, inodes, q) != v
  }

  /** What may be stored at `q`: anything at a leaf, a zeroed block of no other owner in the
      place of a missing pointer block. */
  ghost predicate Storable(sh: Shape, disk: Disk, inodes: Inodes, q: Pos, v: u32) {
    && IsPos(sh, q) && Reachable(disk, inodes, q)
    && (IsLeaf(q) || (At(disk, inodes, q) == 0 && v < |disk| && AllZero(disk[v]) && Unowned(sh, disk, inodes, v)))
  }

  lemma SameParent(q: Pos, r: Pos)
    requires q.digits != [] && r.digits != [] && Parent(q) == Parent(r) && LastDigit(q) == LastDigit(r)
    ensures q == r
  {
    assert q.digits == Parent(q).digits + [LastDigit(q)];
    assert r.digits == Parent(r).digits + [LastDigit(r)];
  }

  /** Storing `v` at `q` changes the block number at `q` to `v` and at no other position. */
  lemma {:induction false} StoreAt(sh: Shape, disk: Disk, inodes: Inodes, used: set<nat>, q: Pos, v: u32, r: Pos)
    requires Inv(sh, disk, inodes, used) && Storable(sh, disk, inodes, q, v) && IsPos(sh, r)
    ensures At(StoreDisk(disk, inodes, q, v), StoreInodes(inodes, q, v), r) == if r == q then v else At(disk, inodes, r)
    decreases |r.digits|
  {
    var disk', inodes' := StoreDisk(disk, inodes, q, v), StoreInodes(inodes, q, v);
    if r.digits == [] {
      RootStore(sh, disk, inodes, q, v, r);
    } else {
      var b := Parent(r);
      ParentIsPos(sh, r);
      StoreAt(sh, disk, inodes, used, q, v, b);
      if b == q {
        StoreBelow(sh, disk, inodes, used, q, v, r);
      } else {
        StoreBeside(sh, disk, inodes, used, q, v, r);
      }
    }
  }

  lemma RootStore(sh: Shape, disk: Disk, inodes: Inodes, q: Pos, v: u32, r: Pos)
    requires WellFormed(sh, disk, inodes) && IsPos(sh, q) && IsPos(sh, r) && r.digits == []
    ensures RootCell(StoreInodes(inodes, q, v), r.ino, r.root) == if r == q then v else RootCell(inodes, r.ino, r.root)
  {
  }

  /** Below a missing pointer block everything reads as 0, before and after a zeroed block takes its place. */
  lemma StoreBelow(sh: Shape, disk: Disk, inodes: Inodes, used: set<nat>, q: Pos, v: u32, r: Pos)
    requires Inv(sh, disk, inodes, used) && Storable(sh, disk, inodes, q, v) && IsPos(sh, r)
    requires r.digits != [] && Parent(r) == q
    ensures Cell(StoreDisk(disk, inodes, q, v), v, LastDigit(r)) == At(disk, inodes, r)
  {
    ParentIsPos(sh, r);
    ZeroCell(disk, 0, LastDigit(r));
    if q.digits != [] {
      ParentIsPos(sh, q);
      assert At(disk, inodes, Parent(q)) != v;
    }
    assert StoreDisk(disk, inodes, q, v)[v] == disk[v];
    ZeroCell(disk, v, LastDigit(r));
  }

  /** The written block is read through one position only, so no other word of the tree moves. */
  lemma StoreBeside(sh: Shape, disk: Disk, inodes: Inodes, used: set<nat>, q: Pos, v: u32, r: Pos)
    requires Inv(sh, disk, inodes, used) && IsPos(sh, q) && Reachable(disk, inodes, q) && IsPos(sh, r)
    requires r.digits != [] && Parent(r) != q
    ensures Cell(StoreDisk(disk, inodes, q, v), At(disk, inodes, Parent(r)), LastDigit(r))
         == if r == q then v else At(disk, inodes, r)
  {
    ParentIsPos(sh, r);
    if q.digits != [] {
      ParentIsPos(sh, q);
      var n, m := At(disk, inodes, Parent(q)), At(disk, inodes, Parent(r));
      assert n in used && n < |disk|;
      if m == n {
        assert Parent(r) == Parent(q);
        if r != q {
          assert LastDigit(r) != LastDigit(q) by {
            if LastDigit(r) == LastDigit(q) {
              SameParent(q, r);
            }
          }
        }
      } else {
        assert r != q;
      }
    }
  }

  /** Whatever is stored at `q`, positions that are no deeper keep their block numbers. */
  lemma {:induction false} StoreShallow(sh: Shape, disk: Disk, inodes: Inodes, used: set<nat>, q: Pos, v: u32, r: Pos)
    requires Inv(sh, disk, inodes, used) && IsPos(sh, q) && Reachable(disk, inodes, q)
    requires IsPos(sh, r) && |r.digits| <= |q.digits|
    ensures At(StoreDisk(disk, inodes, q, v), StoreInodes(inodes, q, v), r) == if r == q then v else At(disk, inodes, r)
    decreases |r.digits|
  {
    if r.digits == [] {
      RootStore(sh, disk, inodes, q, v, r);
    } else {
      ParentIsPos(sh, r);
      StoreShallow(sh, disk, inodes, used, q, v, Parent(r));
      StoreBeside(sh, disk, inodes, used, q, v, r);
    }
  }

  /** Storing a fresh, marked block keeps the ownership invariant. */
  lemma StoreInv(sh: Shape, disk: Disk, inodes: Inodes, used: set<nat>, q: Pos, v: u32)
    requires Inv(sh, disk, inodes, used) && Storable(sh, disk, inodes, q, v)
    requires Unowned(sh, disk, inodes, v) && v in used && v !in sh.meta
    ensures Inv(sh, StoreDisk(disk, inodes, q, v), StoreInodes(inodes, q, v), used)
  {
    var disk', inodes' := StoreDisk(disk, inodes, q, v), StoreInodes(inodes, q, v);
    forall r | IsPos(sh, r)
      ensures At(disk', inodes', r) == if r == q then v else At(disk, inodes, r)
    {
      StoreAt(sh, disk, inodes, used, q, v, r);
    }
    if q.digits != [] {
      ParentIsPos(sh, q);
      assert At(disk, inodes, Parent(q)) in used;
    }
  }

  // ---- the way to a block -----------------------------------------------------------------

  /** A position and every position above it. */
  function Way(q: Pos): (w: set<Pos>)
    ensures q in w
    decreases |q.digits|
  {
    if q.digits == [] then {q} else Way(Parent(q)) + {q}
  }

  /** The pointer blocks on the way to `q`. */
  function Above(q: Pos): set<Pos> {
    if q.digits == [] then {} else Way(Parent(q))
  }

  lemma {:induction false} WayIsPos(sh: Shape, q: Pos)
    requires IsPos(sh, q)
    ensures forall r :: r in Way(q) ==> IsPos(sh, r) && r.ino == q.ino && |r.digits| <= |q.digits|
    ensures forall r :: r in Above(q) ==> IsPos(sh, r) && !IsLeaf(r) && r != q && |r.digits| < |q.digits|
    ensures Way(q) == Above(q) + {q}
    decreases |q.digits|
  {
    if q.digits != [] {
      ParentIsPos(sh, q);
      WayIsPos(sh, Parent(q));
    }
  }

  /** The positions among `ps` that have no block. */
  function Lacking(disk: Disk, inodes: Inodes, ps: set<Pos>): (r: set<Pos>)
    ensures r <= ps
  {
    set q | q in ps && At(disk, inodes, q) == 0
  }

  /** Blocks have appeared at those positions of `ps` that had none; everything else is where it was. */
  ghost predicate Appeared(sh: Shape, disk: Disk, inodes: Inodes, disk': Disk, inodes': Inodes, ps: set<Pos>) {
    && (forall q :: q in ps ==> IsPos(sh, q) && At(disk', inodes', q) != 0)
    && (forall q :: IsPos(sh, q) && (At(disk, inodes, q) != 0 || q !in ps) ==>
          At(disk', inodes', q) == At(disk, inodes, q))
  }

  lemma SubsetSize<T>(a: set<T>, b: set<T>)
    requires a <= b
    ensures |a| <= |b| && (|a| == |b| ==> a == b)
  {
    assert b == a + (b - a);
  }

  /** What is lacking among `ps1` and `ps2` is what is lacking among `ps1`, and what of `ps2` is still lacking when
      `ps1` has been provided. */
  lemma LackingBoth(sh: Shape, disk: Disk, inodes: Inodes, disk1: Disk, inodes1: Inodes, ps1: set<Pos>, ps2: set<Pos>)
    requires Appeared(sh, disk, inodes, disk1, inodes1, ps1) && forall q :: q in ps2 ==> IsPos(sh, q)
    ensures |Lacking(disk, inodes, ps1 + ps2)| == |Lacking(disk, inodes, ps1)| + |Lacking(disk1, inodes1, ps2)|
  {
    var a, b := Lacking(disk, inodes, ps1), Lacking(disk1, inodes1, ps2);
    assert Lacking(disk, inodes, ps1 + ps2) == a + b;
    assert a !! b;
  }

  lemma AppearedBoth(sh: Shape, disk: Disk, inodes: Inodes, disk1: Disk, inodes1: Inodes, disk2: Disk, inodes2: Inodes,
                     ps1: set<Pos>, ps2: set<Pos>)
    requires Appeared(sh, disk, inodes, disk1, inodes1, ps1) && Appeared(sh, disk1, inodes1, disk2, inodes2, ps2)
    ensures Appeared(sh, disk, inodes, disk2, inodes2, ps1 + ps2)
  {
  }

  lemma LackingMore(disk: Disk, inodes: Inodes, ps: set<Pos>, qs: set<Pos>)
    requires ps <= qs
    ensures |Lacking(disk, inodes, ps)| <= |Lacking(disk, inodes, qs)|
  {
    SubsetSize(Lacking(disk, inodes, ps), Lacking(disk, inodes, qs));
  }

  // ---- reading a pointer chain -------------------------------------------------------------

  lemma AtRoot(disk: Disk, inodes: Inodes, ino: nat, root: nat)
    requires ino in inodes && |inodes[ino]| >= INODE_BYTES && root < ROOTS
    ensures At(disk, inodes, Pos(ino, root, [])) == Word(inodes[ino], BLOCKS_WORD + root)
  {
  }

  /** Every pointer of a file names a block of the disk. */
  lemma AtInRange(sh: Shape, disk: Disk, inodes: Inodes, used: set<nat>, q: Pos)
    requires Inv(sh, disk, inodes, used) && IsPos(sh, q)
    ensures At(disk, inodes, q) < |disk| && |disk[At(disk, inodes, q)]| == 4 * sh.p
  {
  }
}
