/** Runs: any number of file writes to any files, any number of block allocations. */
module FileHistory {
  import opened Machine
  import opened PointerTree
  import opened OwnedTree
  import opened Volume
  import opened InodeTable
  import opened FileView
  import opened FileBytes

  // ---- what soundness says -------------------------------------------------------------------------

  /** Each block has at most one role, every owned block is marked in the bitmap, every unmarked block is all zero. */
  lemma OneOwner(g: Geo, sh: Shape, v: Vol, inodes: Inodes, q: Pos, r: Pos)
    requires Good(g, sh, v, inodes) && IsPos(sh, q) && IsPos(sh, r) && At(v.disk, inodes, q) != 0
    ensures g.bpg > 0 && At(v.disk, inodes, q) < |v.disk| && !IsFree(g, v, At(v.disk, inodes, q))
    ensures At(v.disk, inodes, q) !in sh.meta
    ensures At(v.disk, inodes, r) == At(v.disk, inodes, q) ==> r == q
    ensures forall n: nat :: n < |v.disk| && IsFree(g, v, n) ==> AllZero(v.disk[n]) && n !in sh.meta
  {
    Owned(g, sh, v, inodes);
  }

  // ---- runs of writes ------------------------------------------------------------------------------

  datatype FileWrite = FileWrite(ino: u32, offset: u32, data: seq<byte>)

  predicate Covers(w: FileWrite, ino: nat, k: nat) {
    w.ino == ino && w.offset <= k < w.offset + |w.data|
  }

  /** Byte `k` of file `ino` after the writes: the last write that covers it decides. */
  function ByteAfter(ws: seq<FileWrite>, ino: nat, k: nat, was: int): int {
    if ws == [] then was
    else if Covers(ws[|ws| - 1], ino, k) then ws[|ws| - 1].data[k - ws[|ws| - 1].offset]
    else ByteAfter(ws[..|ws| - 1], ino, k, was)
  }

  /** A file reaches to the end of the furthest write. */
  function SizeAfter(ws: seq<FileWrite>, ino: nat, was: nat): nat {
    if ws == [] then was
    else
      var w := ws[|ws| - 1];
      var size := SizeAfter(ws[..|ws| - 1], ino, was);
      if w.ino == ino then Max(size, w.offset + |w.data|) else size
  }

  /** The positions on the way to all blocks that the writes visit. */
  function AllWays(bs: nat, p: nat, ws: seq<FileWrite>): set<Pos> {
    if ws == [] then {}
    else
      var w := ws[|ws| - 1];
      AllWays(bs, p, ws[..|ws| - 1]) + RangeWays(bs, p, w.ino, w.offset, |w.data|)
  }

  /** The free blocks suffice for all blocks that are missing for the writes. */
  ghost predicate RoomAll(g: Geo, sh: Shape, v: Vol, inodes: Inodes, ws: seq<FileWrite>) {
    (if Room(v, inodes, AllWays(g.bs, sh.p, ws)) then Clean else Corrupt).Clean?
  }

  ghost predicate InBounds(sh: Shape, ws: seq<FileWrite>) {
    forall j :: 0 <= j < |ws| ==> ws[j].ino in sh.files && ws[j].offset + |ws[j].data| < WORD_LIMIT
  }

  /** Every byte and every size are what the writes `ws` make of (v, inodes), and the volume is sound. */
  ghost predicate AfterIs(g: Geo, sh: Shape, v: Vol, inodes: Inodes, v': Vol, inodes': Inodes, ws: seq<FileWrite>,
                          k: nat) {
    && g.bs > 0 && Good(g, sh, v, inodes) && Good(g, sh, v', inodes') && |v'.disk| == |v.disk|
    && (forall ino: nat, k: nat :: ino in sh.files && k < WORD_LIMIT ==>
          FileByte(g, sh, v', inodes', ino, k) == ByteAfter(ws, ino, k, FileByte(g, sh, v, inodes, ino, k)))
    && (forall ino: nat :: ino in sh.files && ino in inodes ==>
          ino in inodes' && FileSize(inodes'[ino]) == SizeAfter(ws, ino, FileSize(inodes[ino])))
    && Provided(sh, v, inodes, v', inodes', AllWays(g.bs, sh.p, ws))
  }

  ghost predicate After(g: Geo, sh: Shape, v: Vol, inodes: Inodes, v': Vol, inodes': Inodes, ws: seq<FileWrite>) {
    (if forall k: nat {:trigger Unfold(k)} {:trigger AfterIs(g, sh, v, inodes, v', inodes', ws, k)} ::
       AfterIs(g, sh, v, inodes, v', inodes', ws, k)
     then Clean else Corrupt).Clean?
  }

  lemma AfterNothing(g: Geo, sh: Shape, v: Vol, inodes: Inodes)
    requires Good(g, sh, v, inodes)
    ensures After(g, sh, v, inodes, v, inodes, [])
  {
    Radix(g, sh, v, inodes);
    ProvidedSame(sh, v, inodes, v, inodes, {});
    assert AfterIs(g, sh, v, inodes, v, inodes, [], 0);
  }

  lemma AfterMeans(g: Geo, sh: Shape, v: Vol, inodes: Inodes, v': Vol, inodes': Inodes, ws: seq<FileWrite>)
    requires After(g, sh, v, inodes, v', inodes', ws)
    ensures AfterIs(g, sh, v, inodes, v', inodes', ws, 0)
  {
    assert Unfold(0);
  }

  lemma AfterByte(g: Geo, sh: Shape, v: Vol, i: Inodes, v1: Vol, i1: Inodes, v2: Vol, i2: Inodes, ws: seq<FileWrite>,
                  w: FileWrite, ino: nat, k: nat)
    requires After(g, sh, v, i, v1, i1, ws) && Written(g, sh, v1, i1, v2, i2, w.ino, w.offset, w.data)
    requires ino in sh.files && k < WORD_LIMIT
    ensures FileByte(g, sh, v2, i2, ino, k) == ByteAfter(ws + [w], ino, k, FileByte(g, sh, v, i, ino, k))
  {
    AfterMeans(g, sh, v, i, v1, i1, ws);
    WrittenByte(g, sh, v1, i1, v2, i2, w.ino, w.offset, w.data, ino, k);
    assert (ws + [w])[..|ws|] == ws;
  }

  lemma AfterSize(g: Geo, sh: Shape, v: Vol, i: Inodes, v1: Vol, i1: Inodes, v2: Vol, i2: Inodes, ws: seq<FileWrite>,
                  w: FileWrite, ino: nat)
    requires After(g, sh, v, i, v1, i1, ws) && Written(g, sh, v1, i1, v2, i2, w.ino, w.offset, w.data)
    requires ino in sh.files && ino in i
    ensures ino in i2 && FileSize(i2[ino]) == SizeAfter(ws + [w], ino, FileSize(i[ino]))
  {
    AfterMeans(g, sh, v, i, v1, i1, ws);
    WrittenMeans(g, sh, v1, i1, v2, i2, w.ino, w.offset, w.data);
    assert (ws + [w])[..|ws|] == ws;
  }

  lemma AfterProvided(g: Geo, sh: Shape, v: Vol, i: Inodes, v1: Vol, i1: Inodes, v2: Vol, i2: Inodes,
                      ws: seq<FileWrite>, w: FileWrite)
    requires After(g, sh, v, i, v1, i1, ws) && Written(g, sh, v1, i1, v2, i2, w.ino, w.offset, w.data)
    ensures Provided(sh, v, i, v2, i2, AllWays(g.bs, sh.p, ws + [w])) && Good(g, sh, v2, i2) && |v2.disk| == |v.disk|
    ensures g.bs > 0 && Good(g, sh, v, i)
  {
    assert Unfold(0);
    AfterMeans(g, sh, v, i, v1, i1, ws);
    WrittenMeans(g, sh, v1, i1, v2, i2, w.ino, w.offset, w.data);
    assert (ws + [w])[..|ws|] == ws;
    ProvidedBoth(sh, v, i, v1, i1, v2, i2, AllWays(g.bs, sh.p, ws), RangeWays(g.bs, sh.p, w.ino, w.offset, |w.data|));
  }

  /** One more write. */
  lemma AfterWrite(g: Geo, sh: Shape, v: Vol, i: Inodes, v1: Vol, i1: Inodes, v2: Vol, i2: Inodes, ws: seq<FileWrite>,
                   w: FileWrite)
    requires After(g, sh, v, i, v1, i1, ws) && Written(g, sh, v1, i1, v2, i2, w.ino, w.offset, w.data)
    ensures After(g, sh, v, i, v2, i2, ws + [w])
  {
    AfterProvided(g, sh, v, i, v1, i1, v2, i2, ws, w);
    forall ino: nat, k: nat | ino in sh.files && k < WORD_LIMIT
      ensures FileByte(g, sh, v2, i2, ino, k) == ByteAfter(ws + [w], ino, k, FileByte(g, sh, v, i, ino, k))
    {
      AfterByte(g, sh, v, i, v1, i1, v2, i2, ws, w, ino, k);
    }
    forall ino: nat | ino in sh.files && ino in i
      ensures ino in i2 && FileSize(i2[ino]) == SizeAfter(ws + [w], ino, FileSize(i[ino]))
    {
      AfterSize(g, sh, v, i, v1, i1, v2, i2, ws, w, ino);
    }
    assert AfterIs(g, sh, v, i, v2, i2, ws + [w], 0);
  }

  lemma {:induction false} AllWaysMore(bs: nat, p: nat, ws: seq<FileWrite>, j: nat)
    requires j < |ws|
    ensures AllWays(bs, p, ws[..j]) + RangeWays(bs, p, ws[j].ino, ws[j].offset, |ws[j].data|) <= AllWays(bs, p, ws)
  {
    if j + 1 < |ws| {
      AllWaysMore(bs, p, ws[..|ws| - 1], j);
      assert ws[..|ws| - 1][..j] == ws[..j];
    }
  }

  lemma AfterAll(g: Geo, sh: Shape, v: Vol, i: Inodes, v': Vol, i': Inodes, ws: seq<FileWrite>)
    requires After(g, sh, v, i, v', i', ws)
    ensures Good(g, sh, v', i') && g.bs > 0 && RoomAll(g, sh, v, i, ws)
  {
    assert Unfold(0);
    AfterMeans(g, sh, v, i, v', i', ws);
    ProvidedMeans(sh, v, i, v', i', AllWays(g.bs, sh.p, ws));
  }

  /** If there is no room for write `j` now, there was not enough for all of them before. */
  lemma AfterRoom(g: Geo, sh: Shape, v: Vol, i: Inodes, v1: Vol, i1: Inodes, ws: seq<FileWrite>, j: nat)
    requires j < |ws| && ws[j].ino in sh.files && After(g, sh, v, i, v1, i1, ws[..j])
    requires !RoomRange(g, sh, v1, i1, ws[j].ino, ws[j].offset, |ws[j].data|)
    ensures !RoomAll(g, sh, v, i, ws)
  {
    var w := ws[j];
    AfterMeans(g, sh, v, i, v1, i1, ws[..j]);
    WaysIsPos(sh, w.ino, BlockNo(g.bs, w.offset), BlockNo(g.bs, w.offset + |w.data|) + 1);
    AllWaysMore(g.bs, sh.p, ws, j);
    RoomIn(sh, v, i, v1, i1, AllWays(g.bs, sh.p, ws[..j]), RangeWays(g.bs, sh.p, w.ino, w.offset, |w.data|),
           AllWays(g.bs, sh.p, ws));
  }

  // ---- runs of allocations ------------------------------------------------------------------------------

  /** `nos` are the numbers ext2_alloc_block hands out one after the other, from volume vs[0] on. */
  ghost predicate AllocRun(g: Geo, sh: Shape, vs: seq<Vol>, nos: seq<nat>)
    requires g.bpg > 0
  {
    && |vs| == |nos| + 1 && Layout(g, sh, |vs[0].disk|, vs[0].bgds) && Counted(g, vs[0])
    && forall j :: 0 <= j < |nos| ==> LeastFree(g, vs[j], nos[j]) && vs[j + 1] == TakeNumber(g, vs[j], nos[j])
  }

  lemma TakeNumberKeeps(g: Geo, sh: Shape, v: Vol, no: nat)
    requires Layout(g, sh, |v.disk|, v.bgds) && g.bpg > 0 && Counted(g, v) && IsFree(g, v, no)
    ensures var v' := TakeNumber(g, v, no);
      && Layout(g, sh, |v'.disk|, v'.bgds) && Counted(g, v')
      && forall m: nat :: IsFree(g, v', m) <==> IsFree(g, v, m) && m != no
  {
    var i, k := GroupOf(g.bpg, no), BitIn(g.bpg, no);
    Basics(g, sh, |v.disk|, v.bgds);
    SameNumber(g.bpg, i, k, no);
    assert CanTake(g, sh, v, i, k);
    TakeFrame(g, sh, v, i, k);
    TakeCounted(g, sh, v, i, k);
    LayoutKept(g, sh, |v.disk|, v.bgds, Take(g, v, i, k).bgds);
    forall m: nat ensures IsFree(g, TakeNumber(g, v, no), m) <==> IsFree(g, v, m) && m != no {
      TakeFree(g, sh, v, i, k, m);
    }
  }

  /** Along a run the free blocks only become fewer, and no block below the last number handed out is free. */
  lemma {:induction false} AllocRunState(g: Geo, sh: Shape, vs: seq<Vol>, nos: seq<nat>, j: nat)
    requires g.bpg > 0 && AllocRun(g, sh, vs, nos) && j <= |nos|
    ensures Layout(g, sh, |vs[j].disk|, vs[j].bgds) && Counted(g, vs[j])
    ensures forall m: nat :: IsFree(g, vs[j], m) ==> forall a :: 0 <= a < j ==> nos[a] < m
  {
    if j > 0 {
      AllocRunState(g, sh, vs, nos, j - 1);
      TakeNumberKeeps(g, sh, vs[j - 1], nos[j - 1]);
    }
  }

  /** No number is handed out twice: a run hands out ever larger numbers. */
  lemma AllocRunIncreases(g: Geo, sh: Shape, vs: seq<Vol>, nos: seq<nat>, a: nat, b: nat)
    requires g.bpg > 0 && AllocRun(g, sh, vs, nos) && a < b < |nos|
    ensures nos[a] < nos[b]
  {
    AllocRunState(g, sh, vs, nos, b);
  }
}
