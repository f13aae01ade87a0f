/** What the branches of free_phys_pages (src/memory.c:122-228) write, and exactly when the result is the ring it
    should be. */
module PageRelease {
  import opened Machine
  import opened PageRing

  /** The page of a released run holds no header. */
  lemma GapApart(runs: Ring, total: nat, r: Run, k: nat, i: nat)
    requires Sorted(runs, total) && Gap(runs, total, r, k) && i < |runs|
    ensures runs[i].page != r.page && r.page < total && runs[i].page < total
    ensures runs[i].page < r.page <==> i < k
    ensures i < k ==> EndPage(runs[i]) <= r.page
    ensures i >= k ==> EndPage(r) <= runs[i].page
  {
    assert Placed(runs, total, i);
    assert if i < k then Below(runs, i, r) else Above(runs, i, r);
  }

  /** The last lines of free_phys_pages. */
  function NewHead(head: u32, base: u32): u32 {
    if base < head then base else head
  }

  lemma HeadMoves(mem: seq<Header>, head: u32, runs: Ring, r: Run, k: nat)
    requires HoldsIs(mem, head, runs) && Gap(runs, |mem|, r, k) && runs != []
    ensures Addr(r) < WORD_LIMIT && NewHead(head, Addr(r)) == if k == 0 then Addr(r) else head
  {
    GapApart(runs, |mem|, r, k, 0);
  }

  // ---- behind a free run -----------------------------------------------------------------------------------

  /** A run that grows up to its neighbour swallows it. */
  lemma MergedHolds(mem: seq<Header>, head: u32, runs: Ring, r: Run, k: nat)
    requires HoldsIs(mem, head, runs) && 0 < k < |runs| && JoinsLeft(runs, r, k) && JoinsRight(runs, r, k)
    ensures runs[k - 1].page < |mem| && runs[k - 1].pages + r.pages + runs[k].pages < MAX_PAGES
    ensures var m1 := Unlinked(mem, runs, k);
      Holds(m1[runs[k - 1].page := m1[runs[k - 1].page].(size := runs[k - 1].pages + r.pages + runs[k].pages)], head,
            Merged(runs, r, k))
  {
    var pages := runs[k - 1].pages + r.pages + runs[k].pages;
    var m1, rest := Unlinked(mem, runs, k), Without(runs, k);
    UnlinkedHolds(mem, head, runs, k);
    RunFits(runs, |mem|, k - 1);
    RunFits(runs, |mem|, k);
    WithoutAt(runs, k, k - 1);
    if k < |runs| - 1 {
      WithoutAt(runs, k, k);
    }
    ResizedSorted(rest, |mem|, k - 1, pages);
    ResizedHolds(m1, head, rest, k - 1, pages);
    assert Resized(rest, k - 1, pages) == Merged(runs, r, k);
  }

  /** The writes that let the run at page `c` swallow the run at page `d`, whose neighbour behind is at page `n`. */
  ghost function Joined(mem: seq<Header>, c: nat, d: nat, n: nat): (m: seq<Header>)
    requires c < |mem| && d < |mem| && n < |mem| && PAGE * n < WORD_LIMIT && PAGE * c < WORD_LIMIT
    ensures |m| == |mem|
  {
    var m1 := mem[c := mem[c].(next := PAGE * n, size := Add32(mem[c].size, mem[d].size))];
    m1[n := m1[n].(prev := PAGE * c)]
  }

  /** After the run in front has grown by `r`, these writes complete the merge. */
  lemma JoinedHolds(mem: seq<Header>, head: u32, runs: Ring, r: Run, k: nat)
    requires HoldsIs(mem, head, runs) && 0 < k < |runs| && JoinsLeft(runs, r, k) && JoinsRight(runs, r, k)
    requires runs[k - 1].page < |mem| && runs[k - 1].pages + r.pages < MAX_PAGES
    ensures runs[k].page < |mem| && runs[Next(|runs|, k)].page < |mem|
    ensures var m0 := mem[runs[k - 1].page := mem[runs[k - 1].page].(size := runs[k - 1].pages + r.pages)];
      Holds(Joined(m0, runs[k - 1].page, runs[k].page, runs[Next(|runs|, k)].page), head, Merged(runs, r, k))
  {
    var c, d, n := runs[k - 1].page, runs[k].page, runs[Next(|runs|, k)].page;
    DistinctPages(runs, |mem|, k - 1, k);
    DistinctPages(runs, |mem|, Next(|runs|, k), k);
    DistinctPages(runs, |mem|, Next(|runs|, k), k - 1);
    assert Linked(mem, runs, k);
    MergedHolds(mem, head, runs, r, k);
    var pages := runs[k - 1].pages + r.pages + runs[k].pages;
    var m0 := mem[c := mem[c].(size := runs[k - 1].pages + r.pages)];
    var m1 := Unlinked(mem, runs, k);
    assert Joined(m0, c, d, n) == m1[c := m1[c].(size := pages)];
  }

  /** The free run that ends where `r` starts is the one in front of it. */
  lemma JoinedRun(runs: Ring, total: nat, r: Run, k: nat, i: nat)
    requires Sorted(runs, total) && Gap(runs, total, r, k) && i < |runs| && EndPage(runs[i]) == r.page
    ensures i == k - 1
  {
    GapApart(runs, total, r, k, i);
    assert Placed(runs, total, i + 1) && InOrder(runs, i, i + 1);
    assert i + 1 < k ==> Below(runs, i + 1, r);
  }

  /** Growing up to the released run's end. */
  lemma GrownHolds(mem: seq<Header>, head: u32, runs: Ring, r: Run, k: nat)
    requires HoldsIs(mem, head, runs) && Gap(runs, |mem|, r, k) && JoinsLeft(runs, r, k)
    ensures runs[k - 1].page < |mem| && runs[k - 1].pages + r.pages < MAX_PAGES
    ensures var runs1 := Resized(runs, k - 1, runs[k - 1].pages + r.pages);
      Holds(mem[runs[k - 1].page := mem[runs[k - 1].page].(size := runs[k - 1].pages + r.pages)], head, runs1)
  {
    RunFits(runs, |mem|, k - 1);
    if k < |runs| {
      GapApart(runs, |mem|, r, k, k);
    }
    ResizedSorted(runs, |mem|, k - 1, runs[k - 1].pages + r.pages);
    ResizedHolds(mem, head, runs, k - 1, runs[k - 1].pages + r.pages);
  }

  // ---- in front of a free run ----------------------------------------------------------------------------------

  /** The writes of the branch for a run that ends where free run `k` starts. */
  ghost function PrependMem(mem: seq<Header>, runs: Ring, r: Run, k: nat): (m: seq<Header>)
    requires k < |runs| && Sorted(runs, |mem|) && Gap(runs, |mem|, r, k) && |mem| < MAX_PAGES
    ensures |m| == |mem|
  {
    var p, n, c := Prev(|runs|, k), Next(|runs|, k), runs[k].page;
    GapApart(runs, |mem|, r, k, p);
    GapApart(runs, |mem|, r, k, n);
    GapApart(runs, |mem|, r, k, k);
    var m1 := mem[r.page := Header(Addr(runs[p]), Addr(runs[n]), Add32(mem[r.page].size, mem[c].size))];
    var m2 := m1[runs[n].page := m1[runs[n].page].(prev := Addr(r))];
    m2[runs[p].page := m2[runs[p].page].(next := Addr(r))]
  }

  lemma PrependAt(mem: seq<Header>, runs: Ring, r: Run, k: nat, i: nat)
    requires k < |runs| && Sorted(runs, |mem|) && Gap(runs, |mem|, r, k) && |mem| < MAX_PAGES && i < |runs|
    ensures r.page < |mem| && runs[i].page < |mem| && runs[k].page < |mem|
    ensures var m := PrependMem(mem, runs, r, k);
      && m[r.page].prev == Addr(runs[Prev(|runs|, k)]) && m[r.page].next == Addr(runs[Next(|runs|, k)])
      && m[r.page].size == Add32(mem[r.page].size, mem[runs[k].page].size)
      && m[runs[i].page].size == mem[runs[i].page].size
      && m[runs[i].page].next == (if i == Prev(|runs|, k) then Addr(r) else mem[runs[i].page].next)
      && m[runs[i].page].prev == (if i == Next(|runs|, k) then Addr(r) else mem[runs[i].page].prev)
  {
    GapApart(runs, |mem|, r, k, i);
    GapApart(runs, |mem|, r, k, k);
    GapApart(runs, |mem|, r, k, Prev(|runs|, k));
    GapApart(runs, |mem|, r, k, Next(|runs|, k));
    DistinctPages(runs, |mem|, i, Prev(|runs|, k));
    DistinctPages(runs, |mem|, i, Next(|runs|, k));
  }

  lemma PrependSorted(runs: Ring, total: nat, r: Run, k: nat)
    requires Sorted(runs, total) && Gap(runs, total, r, k) && JoinsRight(runs, r, k)
    ensures Sorted(runs[k := Run(r.page, r.pages + runs[k].pages)], total)
  {
    var more := runs[k := Run(r.page, r.pages + runs[k].pages)];
    forall a: nat ensures Placed(more, total, a) {
      assert Placed(runs, total, a);
    }
    forall a: nat, b: nat ensures InOrder(more, a, b) {
      assert InOrder(runs, a, b);
      if a < k {
        GapApart(runs, total, r, k, a);
      }
    }
  }

  /** The size written is the stale word of the released page plus the old size, and a ring of one run loses its own
      links: the branch is right exactly if there are two runs and the stale word happens to be the right count. */
  lemma PrependExact(mem: seq<Header>, head: u32, runs: Ring, r: Run, k: nat)
    requires HoldsIs(mem, head, runs) && Gap(runs, |mem|, r, k) && JoinsRight(runs, r, k) && !JoinsLeft(runs, r, k)
    ensures r.page < |mem| && Addr(r) < WORD_LIMIT
    ensures Holds(PrependMem(mem, runs, r, k), NewHead(head, Addr(r)), Released(runs, r, k))
      <==> |runs| >= 2 && mem[r.page].size == r.pages
  {
    var m, more, n := PrependMem(mem, runs, r, k), Released(runs, r, k), |runs|;
    HeadMoves(mem, head, runs, r, k);
    PrependSorted(runs, |mem|, r, k);
    RunFits(runs, |mem|, k);
    PrependAt(mem, runs, r, k, k);
    assert Linked(mem, runs, k);
    if n >= 2 && mem[r.page].size == r.pages {
      forall i: nat | i < |more| ensures Linked(m, more, i) {
        PrependAt(mem, runs, r, k, i);
        assert Linked(mem, runs, i);
      }
      assert HoldsIs(m, NewHead(head, Addr(r)), more);
    }
    if Holds(m, NewHead(head, Addr(r)), more) {
      assert Linked(m, more, k);
      assert more[k] == Run(r.page, r.pages + runs[k].pages);
    }
  }

  // ---- between free runs ----------------------------------------------------------------------------------------

  /** The writes of the branch for a run in front of free run `k` that does not touch it; what the code calls prev is
      the run behind. */
  ghost function InsertMem(mem: seq<Header>, runs: Ring, r: Run, k: nat): (m: seq<Header>)
    requires k < |runs| && Sorted(runs, |mem|) && Gap(runs, |mem|, r, k) && |mem| < MAX_PAGES
    ensures |m| == |mem|
  {
    var n := Next(|runs|, k);
    GapApart(runs, |mem|, r, k, n);
    GapApart(runs, |mem|, r, k, k);
    var m1 := mem[runs[k].page := mem[runs[k].page].(prev := Addr(r))];
    var m2 := m1[runs[n].page := m1[runs[n].page].(next := Addr(r))];
    m2[r.page := Header(Addr(runs[n]), Addr(runs[k]), r.pages)]
  }

  lemma InsertAt(mem: seq<Header>, runs: Ring, r: Run, k: nat, i: nat)
    requires k < |runs| && Sorted(runs, |mem|) && Gap(runs, |mem|, r, k) && |mem| < MAX_PAGES && i < |runs|
    ensures r.page < |mem| && runs[i].page < |mem|
    ensures var m := InsertMem(mem, runs, r, k);
      && m[r.page].prev == Addr(runs[Next(|runs|, k)]) && m[r.page].next == Addr(runs[k]) && m[r.page].size == r.pages
      && m[runs[i].page].size == mem[runs[i].page].size
      && m[runs[i].page].next == (if i == Next(|runs|, k) then Addr(r) else mem[runs[i].page].next)
      && m[runs[i].page].prev == (if i == k then Addr(r) else mem[runs[i].page].prev)
  {
    GapApart(runs, |mem|, r, k, i);
    GapApart(runs, |mem|, r, k, k);
    GapApart(runs, |mem|, r, k, Next(|runs|, k));
    DistinctPages(runs, |mem|, i, k);
    DistinctPages(runs, |mem|, i, Next(|runs|, k));
  }

  lemma InsertedSorted(runs: Ring, total: nat, r: Run, k: nat)
    requires Sorted(runs, total) && Gap(runs, total, r, k)
    ensures Sorted(Inserted(runs, k, r), total)
  {
    var more := Inserted(runs, k, r);
    forall a: nat ensures Placed(more, total, a) {
      assert a < k ==> Placed(runs, total, a);
      assert a > k ==> Placed(runs, total, a - 1);
    }
    forall a: nat, b: nat ensures InOrder(more, a, b) {
      assert a < k ==> Below(runs, a, r);
      assert k < b < |more| ==> Above(runs, b - 1, r);
      assert b < k ==> InOrder(runs, a, b);
      assert a < k < b ==> InOrder(runs, a, b - 1);
      assert k < a && k < b ==> InOrder(runs, a - 1, b - 1);
    }
  }

  lemma InsertedAt(runs: Ring, k: nat, r: Run, j: nat)
    requires k <= |runs| && j <= |runs|
    ensures |Inserted(runs, k, r)| == |runs| + 1
    ensures Inserted(runs, k, r)[j] == if j < k then runs[j] else if j == k then r else runs[j - 1]
  {
  }

  /** A ring of one or two runs looks the same in both directions; in a longer one the mix-up breaks the ring. */
  lemma InsertExact(mem: seq<Header>, head: u32, runs: Ring, r: Run, k: nat)
    requires HoldsIs(mem, head, runs) && Gap(runs, |mem|, r, k) && k < |runs| && !JoinsRight(runs, r, k)
             && !JoinsLeft(runs, r, k)
    ensures Addr(r) < WORD_LIMIT
    ensures Holds(InsertMem(mem, runs, r, k), NewHead(head, Addr(r)), Released(runs, r, k)) <==> |runs| <= 2
  {
    var m, more, n := InsertMem(mem, runs, r, k), Released(runs, r, k), |runs|;
    HeadMoves(mem, head, runs, r, k);
    InsertedSorted(runs, |mem|, r, k);
    InsertAt(mem, runs, r, k, k);
    InsertAt(mem, runs, r, k, Next(n, k));
    assert Linked(mem, runs, k) && Linked(mem, runs, Next(n, k));
    InsertedAt(runs, k, r, 0);
    InsertedAt(runs, k, r, k);
    InsertedAt(runs, k, r, k + 1);
    InsertedAt(runs, k, r, Prev(n + 1, k));
    if n <= 2 {
      InsertedAt(runs, k, r, 1);
      InsertedAt(runs, k, r, n);
      forall i: nat | i < |more| ensures Linked(m, more, i) {
      }
      assert HoldsIs(m, NewHead(head, Addr(r)), more);
    } else {
      DistinctPages(runs, |mem|, Prev(n, k), Next(n, k));
    }
    if Holds(m, NewHead(head, Addr(r)), more) {
      assert Linked(m, more, k);
    }
  }

  // ---- behind all free runs -----------------------------------------------------------------------------------------

  /** The writes of the branch for a run behind the last one, which it does not touch. */
  ghost function LastMem(mem: seq<Header>, runs: Ring, r: Run): (m: seq<Header>)
    requires runs != [] && Sorted(runs, |mem|) && Gap(runs, |mem|, r, |runs|) && |mem| < MAX_PAGES
    ensures |m| == |mem|
  {
    var c := runs[|runs| - 1];
    GapApart(runs, |mem|, r, |runs|, |runs| - 1);
    var m1 := mem[c.page := mem[c.page].(prev := Addr(r), next := Addr(r))];
    m1[r.page := Header(Addr(c), Addr(c), r.pages)]
  }

  /** Only a ring of one run may be closed like this. */
  lemma LastExact(mem: seq<Header>, head: u32, runs: Ring, r: Run)
    requires HoldsIs(mem, head, runs) && runs != [] && Gap(runs, |mem|, r, |runs|) && !JoinsLeft(runs, r, |runs|)
    ensures Addr(r) < WORD_LIMIT
    ensures Holds(LastMem(mem, runs, r), NewHead(head, Addr(r)), Released(runs, r, |runs|)) <==> |runs| == 1
  {
    var m, more, n := LastMem(mem, runs, r), Released(runs, r, |runs|), |runs|;
    HeadMoves(mem, head, runs, r, n);
    InsertedSorted(runs, |mem|, r, n);
    GapApart(runs, |mem|, r, n, n - 1);
    assert Linked(mem, runs, n - 1);
    InsertedAt(runs, n, r, 0);
    InsertedAt(runs, n, r, n);
    if n == 1 {
      forall i: nat | i < |more| ensures Linked(m, more, i) {
      }
      assert HoldsIs(m, NewHead(head, Addr(r)), more);
    } else {
      DistinctPages(runs, |mem|, 0, n - 1);
    }
    if Holds(m, NewHead(head, Addr(r)), more) {
      assert Linked(m, more, n);
    }
  }

  // ---- all branches -----------------------------------------------------------------------------------------------

  /** When free_phys_pages leaves the ring it should: always into an empty ring and behind a free run that the pages
      touch; otherwise only for the short rings above. */
  predicate ComesOutRight(mem: seq<Header>, runs: Ring, r: Run, k: nat)
    requires r.page < |mem|
  {
    || runs == []
    || JoinsLeft(runs, r, k)
    || (JoinsRight(runs, r, k) && |runs| >= 2 && mem[r.page].size == r.pages)
    || (!JoinsRight(runs, r, k) && k < |runs| <= 2)
    || (k == |runs| == 1)
  }

  lemma FirstHolds(mem: seq<Header>, r: Run)
    requires Gap([], |mem|, r, 0) && |mem| < MAX_PAGES
    ensures Addr(r) < WORD_LIMIT && r.pages < WORD_LIMIT && r.page < |mem|
    ensures Holds(mem[r.page := Header(Addr(r), Addr(r), r.pages)], Addr(r), Released([], r, 0))
  {
    var m := mem[r.page := Header(Addr(r), Addr(r), r.pages)];
    assert Released([], r, 0) == [r];
    assert HoldsIs(m, Addr(r), [r]);
  }

  /** Two free pages, 1 and 3; giving back page 5 breaks the ring. */
  lemma BrokenRing() returns (mem: seq<Header>, runs: Ring, r: Run)
    ensures HoldsIs(mem, PAGE, runs) && runs != [] && Gap(runs, |mem|, r, |runs|) && !JoinsLeft(runs, r, |runs|)
    ensures Addr(r) < WORD_LIMIT && !Holds(LastMem(mem, runs, r), NewHead(PAGE, Addr(r)), Released(runs, r, |runs|))
  {
    var h := Header(0, 0, 0);
    runs, r := [Run(1, 1), Run(3, 1)], Run(5, 1);
    mem := [h, Header(3 * PAGE, 3 * PAGE, 1), h, Header(PAGE, PAGE, 1), h, h];
    assert HoldsIs(mem, PAGE, runs);
    LastExact(mem, PAGE, runs, r);
  }

  /** Giving back the pages of a splitting allocation restores the ring, exactly if the run they came from does not
      touch the one behind it; otherwise the two runs are merged. */
  lemma FreeUndoesSplit(mem: seq<Header>, head: u32, runs: Ring, i: nat, count: nat)
    requires HoldsIs(mem, head, runs) && i < |runs| && 0 < count < runs[i].pages
    ensures var left, r := Taken(runs, i, count), Run(EndPage(runs[i]) - count, count);
      && Gap(left, |mem|, r, i + 1) && JoinsLeft(left, r, i + 1)
      && (Released(left, r, i + 1) == runs <==> !JoinsRight(runs, runs[i], i + 1))
  {
    var left, r := Taken(runs, i, count), Run(EndPage(runs[i]) - count, count);
    RunFits(runs, |mem|, i);
    forall a: nat | a < i + 1 ensures Below(left, a, r) {
      assert InOrder(runs, a, i);
    }
    forall a: nat | i + 1 <= a < |left| ensures Above(left, a, r) {
      assert InOrder(runs, i, a);
    }
    if !JoinsRight(runs, runs[i], i + 1) {
      assert Released(left, r, i + 1) == runs;
    } else {
      assert |Released(left, r, i + 1)| == |runs| - 1;
    }
  }
}
