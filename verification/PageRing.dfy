/** The ring of free page runs (src/memory.c:115-291). Every free run keeps a header with the addresses of its
    neighbours and its size inside its own first page; a page is seen only while it is mapped at TEMP_PAGE. */
module PageRing {
  import opened Machine

  const PAGE := 0x1000
  const MAX_PAGES := 0x10_0000

  /** block_pmem: what the first words of a page hold. */
  datatype Header = Header(prev: u32, next: u32, size: u32)

  /** Pages page, page + 1, ..., page + pages - 1. */
  datatype Run = Run(page: nat, pages: nat)

  type Ring = seq<Run>

  function Addr(r: Run): nat {
    PAGE * r.page
  }

  function EndPage(r: Run): nat {
    r.page + r.pages
  }

  /** Run `i` is not empty and lies inside `total` pages of memory. */
  predicate Placed(runs: Ring, total: nat, i: nat) {
    i < |runs| ==> 0 < runs[i].pages && EndPage(runs[i]) <= total
  }

  predicate InOrder(runs: Ring, i: nat, j: nat) {
    i < j < |runs| ==> EndPage(runs[i]) <= runs[j].page
  }

  /** Runs in address order, without overlap. */
  ghost predicate Sorted(runs: Ring, total: nat) {
    (forall i: nat :: Placed(runs, total, i)) && (forall i: nat, j: nat :: InOrder(runs, i, j))
  }

  /** The header of run `i` links to its neighbours on both sides and holds its size. */
  predicate Linked(mem: seq<Header>, runs: Ring, i: nat) {
    && i < |runs| && runs[i].page < |mem|
    && mem[runs[i].page].prev == Addr(runs[Prev(|runs|, i)])
    && mem[runs[i].page].next == Addr(runs[Next(|runs|, i)])
    && mem[runs[i].page].size == runs[i].pages
  }

  /** The pages hold exactly this ring: prev and next are inverse, and the head is the lowest run. */
  ghost predicate HoldsIs(mem: seq<Header>, head: u32, runs: Ring) {
    && Sorted(runs, |mem|) && |mem| < MAX_PAGES
    && head == (if runs == [] then MINUS_ONE else Addr(runs[0]))
    && forall i: nat :: i < |runs| ==> Linked(mem, runs, i)
  }

  ghost predicate Holds(mem: seq<Header>, head: u32, runs: Ring) {
    (if HoldsIs(mem, head, runs) then Clean else Corrupt).Clean?
  }

  /** The pages of the first `n` runs. */
  function PagesUpTo(runs: Ring, n: nat): nat
    requires n <= |runs|
  {
    if n == 0 then 0 else PagesUpTo(runs, n - 1) + runs[n - 1].pages
  }

  function PagesIn(runs: Ring): nat {
    PagesUpTo(runs, |runs|)
  }

  lemma {:induction false} PagesSetUpTo(runs: Ring, i: nat, r: Run, n: nat)
    requires i < |runs| && n <= |runs|
    ensures PagesUpTo(runs[i := r], n) == PagesUpTo(runs, n) + if i < n then r.pages - runs[i].pages else 0
  {
    if n > 0 {
      PagesSetUpTo(runs, i, r, n - 1);
    }
  }

  lemma PagesSet(runs: Ring, i: nat, r: Run)
    requires i < |runs|
    ensures PagesIn(runs[i := r]) == PagesIn(runs) - runs[i].pages + r.pages
  {
    PagesSetUpTo(runs, i, r, |runs|);
  }

  function Inserted(runs: Ring, i: nat, r: Run): Ring
    requires i <= |runs|
  {
    runs[..i] + [r] + runs[i..]
  }

  lemma {:induction false} PagesWithoutUpTo(runs: Ring, i: nat, n: nat)
    requires i < |runs| && n < |runs|
    ensures PagesUpTo(Without(runs, i), n) == if n <= i then PagesUpTo(runs, n)
            else PagesUpTo(runs, n + 1) - runs[i].pages
  {
    if n > 0 {
      PagesWithoutUpTo(runs, i, n - 1);
    }
  }

  lemma PagesWithout(runs: Ring, i: nat)
    requires i < |runs|
    ensures PagesIn(Without(runs, i)) == PagesIn(runs) - runs[i].pages
  {
    PagesWithoutUpTo(runs, i, |runs| - 1);
  }

  lemma {:induction false} PagesInsertedUpTo(runs: Ring, i: nat, r: Run, n: nat)
    requires i <= |runs| && n <= |runs|
    ensures PagesUpTo(Inserted(runs, i, r), n) == PagesUpTo(runs, n) - if i < n then runs[n - 1].pages - r.pages else 0
    ensures i <= n ==> PagesUpTo(Inserted(runs, i, r), n + 1) == PagesUpTo(runs, n) + r.pages
  {
    if n > 0 {
      PagesInsertedUpTo(runs, i, r, n - 1);
    }
  }

  lemma PagesInserted(runs: Ring, i: nat, r: Run)
    requires i <= |runs|
    ensures PagesIn(Inserted(runs, i, r)) == PagesIn(runs) + r.pages
  {
    PagesInsertedUpTo(runs, i, r, |runs|);
  }

  lemma {:induction false} OneRunUpTo(runs: Ring, i: nat, n: nat)
    requires i < n <= |runs|
    ensures runs[i].pages <= PagesUpTo(runs, n)
  {
    if i < n - 1 {
      OneRunUpTo(runs, i, n - 1);
    }
  }

  lemma OneRunAtMost(runs: Ring, i: nat)
    requires i < |runs|
    ensures runs[i].pages <= PagesIn(runs)
  {
    OneRunUpTo(runs, i, |runs|);
  }

  // ---- taking pages ------------------------------------------------------------------------------------

  /** The first run with at least `count` pages, |runs| if there is none. */
  function FirstFit(runs: Ring, count: nat): (i: nat)
    ensures i <= |runs|
    ensures forall j :: 0 <= j < i ==> runs[j].pages < count
    ensures i < |runs| ==> runs[i].pages >= count
  {
    if runs == [] then 0
    else
      var i := FirstFit(runs[..|runs| - 1], count);
      if i < |runs| - 1 || runs[|runs| - 1].pages >= count then i else |runs|
  }

  /** The ring after the last `count` pages of run `i` have been taken. */
  function Taken(runs: Ring, i: nat, count: nat): Ring
    requires i < |runs| && count <= runs[i].pages
  {
    if runs[i].pages == count then Without(runs, i) else Resized(runs, i, runs[i].pages - count)
  }

  lemma PagesTaken(runs: Ring, i: nat, count: nat)
    requires i < |runs| && count <= runs[i].pages
    ensures PagesIn(Taken(runs, i, count)) == PagesIn(runs) - count
  {
    PagesWithout(runs, i);
    PagesSet(runs, i, Run(runs[i].page, runs[i].pages - count));
  }

  lemma DistinctPages(runs: Ring, total: nat, i: nat, j: nat)
    requires Sorted(runs, total) && i < |runs| && j < |runs|
    ensures runs[i].page == runs[j].page ==> i == j
    ensures runs[i].page < total && runs[j].page < total
  {
    assert Placed(runs, total, i) && Placed(runs, total, j) && InOrder(runs, i, j) && InOrder(runs, j, i);
  }

  lemma WithoutAt(runs: Ring, i: nat, k: nat)
    requires i < |runs| && k < |runs| - 1
    ensures Without(runs, i)[k] == runs[Up(i, k)]
  {
  }

  lemma UpNeighbours(n: nat, i: nat, k: nat)
    requires i < n && k < n - 1
    ensures Up(i, Next(n - 1, k)) == (if Next(n, Up(i, k)) == i then Next(n, i) else Next(n, Up(i, k)))
    ensures Up(i, Prev(n - 1, k)) == (if Prev(n, Up(i, k)) == i then Prev(n, i) else Prev(n, Up(i, k)))
    ensures Next(n, Up(i, k)) == i <==> Up(i, k) == Prev(n, i)
    ensures Prev(n, Up(i, k)) == i <==> Up(i, k) == Next(n, i)
  {
  }

  /** The two writes that unlink run `i`. */
  ghost function Unlinked(mem: seq<Header>, runs: Ring, i: nat): (r: seq<Header>)
    requires i < |runs| && Sorted(runs, |mem|) && |mem| < MAX_PAGES
    ensures |r| == |mem|
  {
    var p, n := Prev(|runs|, i), Next(|runs|, i);
    DistinctPages(runs, |mem|, p, n);
    var m1 := mem[runs[n].page := mem[runs[n].page].(prev := Addr(runs[p]))];
    m1[runs[p].page := m1[runs[p].page].(next := Addr(runs[n]))]
  }

  lemma UnlinkedMem(mem: seq<Header>, runs: Ring, i: nat, k: nat)
    requires i < |runs| && k < |runs| && Sorted(runs, |mem|) && |mem| < MAX_PAGES
    ensures runs[k].page < |mem|
    ensures var r, h := Unlinked(mem, runs, i)[runs[k].page], mem[runs[k].page];
      && r.size == h.size
      && r.next == (if k == Prev(|runs|, i) then Addr(runs[Next(|runs|, i)]) else h.next)
      && r.prev == (if k == Next(|runs|, i) then Addr(runs[Prev(|runs|, i)]) else h.prev)
  {
    DistinctPages(runs, |mem|, k, Prev(|runs|, i));
    DistinctPages(runs, |mem|, k, Next(|runs|, i));
  }

  lemma WithoutSorted(runs: Ring, total: nat, i: nat)
    requires Sorted(runs, total) && i < |runs|
    ensures Sorted(Without(runs, i), total)
  {
    var rest := Without(runs, i);
    forall a: nat ensures Placed(rest, total, a) {
      assert Placed(runs, total, Up(i, a));
      assert a < |rest| ==> rest[a] == runs[Up(i, a)];
    }
    forall a: nat, b: nat ensures InOrder(rest, a, b) {
      assert InOrder(runs, Up(i, a), Up(i, b));
      assert a < |rest| ==> rest[a] == runs[Up(i, a)];
      assert b < |rest| ==> rest[b] == runs[Up(i, b)];
    }
  }

  function HeadWithout(head: u32, runs: Ring, i: nat): int {
    if |runs| <= 1 then MINUS_ONE else if i == 0 then Addr(runs[1]) else head
  }

  /** Unlinking leaves the ring of the other runs. */
  lemma UnlinkedHolds(mem: seq<Header>, head: u32, runs: Ring, i: nat)
    requires HoldsIs(mem, head, runs) && i < |runs|
    ensures 0 <= HeadWithout(head, runs, i) < WORD_LIMIT
    ensures Holds(Unlinked(mem, runs, i), HeadWithout(head, runs, i), Without(runs, i))
  {
    var rest := Without(runs, i);
    WithoutSorted(runs, |mem|, i);
    forall k: nat | k < |rest| ensures Linked(Unlinked(mem, runs, i), rest, k) {
      UnlinkedAt(mem, head, runs, i, k);
    }
    if |rest| > 0 {
      WithoutAt(runs, i, 0);
      DistinctPages(runs, |mem|, 0, 1);
    }
    assert HoldsIs(Unlinked(mem, runs, i), HeadWithout(head, runs, i), rest);
  }

  lemma UnlinkedAt(mem: seq<Header>, head: u32, runs: Ring, i: nat, k: nat)
    requires HoldsIs(mem, head, runs) && i < |runs| && k < |runs| - 1
    ensures Linked(Unlinked(mem, runs, i), Without(runs, i), k)
  {
    var n := |runs|;
    assert Linked(mem, runs, Up(i, k)) && Linked(mem, runs, i);
    UnlinkedMem(mem, runs, i, Up(i, k));
    UpNeighbours(n, i, k);
    WithoutAt(runs, i, k);
    WithoutAt(runs, i, Next(n - 1, k));
    WithoutAt(runs, i, Prev(n - 1, k));
  }

  function Resized(runs: Ring, i: nat, pages: nat): Ring
    requires i < |runs|
  {
    runs[i := Run(runs[i].page, pages)]
  }

  /** Giving run `i` another size, in place. */
  lemma ResizedHolds(mem: seq<Header>, head: u32, runs: Ring, i: nat, pages: u32)
    requires HoldsIs(mem, head, runs) && i < |runs| && Sorted(Resized(runs, i, pages), |mem|)
    ensures runs[i].page < |mem|
    ensures Holds(mem[runs[i].page := mem[runs[i].page].(size := pages)], head, Resized(runs, i, pages))
  {
    assert Linked(mem, runs, i);
    var runs' := Resized(runs, i, pages);
    var mem' := mem[runs[i].page := mem[runs[i].page].(size := pages)];
    forall k: nat | k < |runs'| ensures Linked(mem', runs', k) {
      assert Linked(mem, runs, k);
      DistinctPages(runs, |mem|, k, i);
    }
    assert HoldsIs(mem', head, runs');
  }

  /** A run may shrink, and it may grow as far as the next run starts. */
  lemma ResizedSorted(runs: Ring, total: nat, i: nat, pages: nat)
    requires Sorted(runs, total) && i < |runs| && 0 < pages && runs[i].page + pages <= total
    requires i + 1 < |runs| ==> runs[i].page + pages <= runs[i + 1].page
    ensures Sorted(Resized(runs, i, pages), total)
  {
    var runs' := Resized(runs, i, pages);
    forall a: nat ensures Placed(runs', total, a) {
      assert Placed(runs, total, a);
    }
    forall a: nat, b: nat ensures InOrder(runs', a, b) {
      assert InOrder(runs, a, b) && InOrder(runs, i + 1, b) && Placed(runs, total, i + 1);
    }
  }

  lemma RunFits(runs: Ring, total: nat, i: nat)
    requires Sorted(runs, total) && i < |runs|
    ensures 0 < runs[i].pages && EndPage(runs[i]) <= total
    ensures i + 1 < |runs| ==> EndPage(runs[i]) <= runs[i + 1].page
  {
    assert Placed(runs, total, i) && InOrder(runs, i, i + 1);
  }

  lemma {:induction false} PagesBoundUpTo(runs: Ring, total: nat, n: nat)
    requires Sorted(runs, total) && n <= |runs|
    ensures n > 0 ==> PagesUpTo(runs, n) <= EndPage(runs[n - 1])
  {
    if n > 1 {
      PagesBoundUpTo(runs, total, n - 1);
      RunFits(runs, total, n - 2);
    }
  }

  lemma PagesBound(runs: Ring, total: nat)
    requires Sorted(runs, total)
    ensures PagesIn(runs) <= total
  {
    PagesBoundUpTo(runs, total, |runs|);
    if runs != [] {
      RunFits(runs, total, |runs| - 1);
    }
  }

  // ---- giving pages back -------------------------------------------------------------------------------

  /** Run `r` lies in the gap in front of run `k`, without touching a free page. */
  ghost predicate Gap(runs: Ring, total: nat, r: Run, k: nat) {
    && k <= |runs| && 0 < r.pages && EndPage(r) <= total
    && (forall i: nat :: i < k ==> Below(runs, i, r)) && (forall i: nat :: k <= i < |runs| ==> Above(runs, i, r))
  }

  predicate Below(runs: Ring, i: nat, r: Run) {
    i < |runs| && EndPage(runs[i]) <= r.page
  }

  predicate Above(runs: Ring, i: nat, r: Run) {
    i < |runs| && EndPage(r) <= runs[i].page
  }

  /** `r` starts where the run in front of it ends. */
  predicate JoinsLeft(runs: Ring, r: Run, k: nat) {
    0 < k <= |runs| && EndPage(runs[k - 1]) == r.page
  }

  /** `r` ends where the run behind it starts. */
  predicate JoinsRight(runs: Ring, r: Run, k: nat) {
    k < |runs| && EndPage(r) == runs[k].page
  }

  /** `r` fills the gap between run k - 1 and run k, which become one. */
  function Merged(runs: Ring, r: Run, k: nat): Ring
    requires 0 < k < |runs|
  {
    Without(Resized(runs, k - 1, runs[k - 1].pages + r.pages + runs[k].pages), k)
  }

  /** The ring after `r` has been given back, merged with the free runs it touches. */
  function Released(runs: Ring, r: Run, k: nat): Ring
    requires k <= |runs|
  {
    if JoinsLeft(runs, r, k) && JoinsRight(runs, r, k)
    then Merged(runs, r, k)
    else if JoinsLeft(runs, r, k) then Resized(runs, k - 1, runs[k - 1].pages + r.pages)
    else if JoinsRight(runs, r, k) then runs[k := Run(r.page, r.pages + runs[k].pages)]
    else Inserted(runs, k, r)
  }

  lemma PagesMerged(runs: Ring, r: Run, k: nat)
    requires 0 < k < |runs|
    ensures PagesIn(Merged(runs, r, k)) == PagesIn(runs) + r.pages
  {
    var pages := runs[k - 1].pages + r.pages + runs[k].pages;
    PagesSet(runs, k - 1, Run(runs[k - 1].page, pages));
    PagesWithout(Resized(runs, k - 1, pages), k);
  }

  lemma PagesReleased(runs: Ring, r: Run, k: nat)
    requires k <= |runs|
    ensures PagesIn(Released(runs, r, k)) == PagesIn(runs) + r.pages
  {
    if JoinsLeft(runs, r, k) {
      if JoinsRight(runs, r, k) {
        PagesMerged(runs, r, k);
      } else {
        PagesSet(runs, k - 1, Run(runs[k - 1].page, runs[k - 1].pages + r.pages));
      }
    } else if JoinsRight(runs, r, k) {
      PagesSet(runs, k, Run(r.page, r.pages + runs[k].pages));
    } else {
      PagesInserted(runs, k, r);
    }
  }

  /** Page `p` is free. */
  ghost predicate FreePage(runs: Ring, p: nat) {
    exists i: nat :: Covers(runs, i, p)
  }

  predicate Covers(runs: Ring, i: nat, p: nat) {
    i < |runs| && runs[i].page <= p < EndPage(runs[i])
  }

  /** Exactly the pages of the result are no longer free. */
  lemma TakenPages(runs: Ring, total: nat, i: nat, count: nat, p: nat)
    requires Sorted(runs, total) && i < |runs| && count <= runs[i].pages
    ensures FreePage(Taken(runs, i, count), p)
      <==> FreePage(runs, p) && !(EndPage(runs[i]) - count <= p < EndPage(runs[i]))
  {
    var rest := Taken(runs, i, count);
    if FreePage(rest, p) {
      var a: nat :| Covers(rest, a, p);
      var a1 := if runs[i].pages == count then Up(i, a) else a;
      assert Covers(runs, a1, p) && InOrder(runs, a1, i) && InOrder(runs, i, a1);
    }
    if FreePage(runs, p) && !(EndPage(runs[i]) - count <= p < EndPage(runs[i])) {
      var a: nat :| Covers(runs, a, p);
      assert Covers(rest, if runs[i].pages == count && a > i then a - 1 else a, p);
    }
  }

  lemma MergedCovers(runs: Ring, r: Run, k: nat, a: nat, p: nat)
    requires 0 < k < |runs| && JoinsLeft(runs, r, k) && JoinsRight(runs, r, k) && a < |runs| - 1
    ensures Covers(Merged(runs, r, k), a, p)
      <==> Covers(runs, Up(k, a), p) || (a == k - 1 && (Covers(runs, k, p) || r.page <= p < EndPage(r)))
  {
    WithoutAt(Resized(runs, k - 1, runs[k - 1].pages + r.pages + runs[k].pages), k, a);
  }

  lemma MergedPages(runs: Ring, r: Run, k: nat, p: nat)
    requires 0 < k < |runs| && JoinsLeft(runs, r, k) && JoinsRight(runs, r, k)
    ensures FreePage(Merged(runs, r, k), p) <==> FreePage(runs, p) || r.page <= p < EndPage(r)
  {
    if FreePage(Merged(runs, r, k), p) {
      var a: nat :| Covers(Merged(runs, r, k), a, p);
      MergedCovers(runs, r, k, a, p);
    }
    if FreePage(runs, p) {
      var a: nat :| Covers(runs, a, p);
      MergedCovers(runs, r, k, if a < k then a else a - 1, p);
    }
    MergedCovers(runs, r, k, k - 1, p);
  }

  lemma InsertedPages(runs: Ring, r: Run, k: nat, p: nat)
    requires k <= |runs|
    ensures FreePage(Inserted(runs, k, r), p) <==> FreePage(runs, p) || r.page <= p < EndPage(r)
  {
    var more := Inserted(runs, k, r);
    if a: nat :| Covers(more, a, p) {
      assert a < k ==> Covers(runs, a, p);
      assert a > k ==> Covers(runs, a - 1, p);
    }
    if a: nat :| Covers(runs, a, p) {
      assert Covers(more, Up(k, a), p);
    }
    assert r.page <= p < EndPage(r) ==> Covers(more, k, p);
  }

  /** Exactly the pages of `r` become free. */
  lemma ReleasedPages(runs: Ring, r: Run, k: nat, p: nat)
    requires k <= |runs|
    ensures FreePage(Released(runs, r, k), p) <==> FreePage(runs, p) || r.page <= p < EndPage(r)
  {
    var left, right := JoinsLeft(runs, r, k), JoinsRight(runs, r, k);
    if left && right {
      MergedPages(runs, r, k, p);
    } else if left || right {
      var at := if left then k - 1 else k;
      var more := Released(runs, r, k);
      assert forall a: nat :: Covers(more, a, p) <==> Covers(runs, a, p) || (a == at && r.page <= p < EndPage(r));
      assert r.page <= p < EndPage(r) ==> Covers(more, at, p);
    } else {
      InsertedPages(runs, r, k, p);
    }
  }
}
