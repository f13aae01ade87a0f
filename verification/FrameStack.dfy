/** The free ring, taken one page at a time (src/memory.c:230-291 with count = 1, as in src/memory.c:366-396): what
    alloc_phys_pages(1) hands out is the top of a stack of frames. */
module FrameStack {
  import opened Machine
  import opened PageRing

  /** The pages of a run, from the first one on. */
  function Pages(r: Run): (s: seq<nat>)
    ensures |s| == r.pages && forall i :: 0 <= i < |s| ==> s[i] == r.page + i
  {
    seq(r.pages, i requires 0 <= i < r.pages => r.page + i)
  }

  /** All free pages, the one that is handed out next on top. */
  function Stack(runs: Ring): seq<nat> {
    if runs == [] then [] else Stack(runs[1..]) + Pages(runs[0])
  }

  lemma PagesLast(r: Run)
    requires r.pages > 0
    ensures Pages(r) == Pages(Run(r.page, r.pages - 1)) + [EndPage(r) - 1]
  {
  }

  lemma StackCons(r: Run, rest: Ring)
    ensures Stack([r] + rest) == Stack(rest) + Pages(r)
  {
    assert ([r] + rest)[1..] == rest;
  }

  lemma TakenFirst(runs: Ring)
    requires runs != [] && runs[0].pages > 0
    ensures var r, rest := runs[0], runs[1..];
      && runs == [r] + rest
      && Taken(runs, 0, 1) == if r.pages == 1 then rest else [Run(r.page, r.pages - 1)] + rest
  {
  }

  lemma PopFirst(runs: Ring, r: Run, rest: Ring, taken: Ring)
    requires r.pages > 0 && runs == [r] + rest
    requires taken == if r.pages == 1 then rest else [Run(r.page, r.pages - 1)] + rest
    ensures Stack(runs) == Stack(taken) + [EndPage(r) - 1]
  {
    var less := Run(r.page, r.pages - 1);
    StackCons(r, rest);
    StackCons(less, rest);
    PagesLast(r);
    var s, p, q := Stack(rest), Pages(less), [EndPage(r) - 1];
    assert s + (p + q) == (s + p) + q;
    if r.pages == 1 {
      assert p == [] && s + p == s;
    }
  }

  lemma PopRuns(runs: Ring)
    requires runs != [] && runs[0].pages > 0
    ensures Stack(runs) == Stack(Taken(runs, 0, 1)) + [EndPage(runs[0]) - 1]
  {
    TakenFirst(runs);
    PopFirst(runs, runs[0], runs[1..], Taken(runs, 0, 1));
  }

  /** alloc_phys_pages(1), which takes from the first run, pops the top of the stack, and fails exactly if the stack
      is empty. */
  lemma PopIsAlloc(runs: Ring, total: nat)
    requires Sorted(runs, total)
    ensures Stack(runs) == [] <==> forall i :: 0 <= i < |runs| ==> runs[i].pages < 1
    ensures Stack(runs) != [] ==> FirstFit(runs, 1) == 0
    ensures Stack(runs) != [] ==> Stack(runs) == Stack(Taken(runs, 0, 1)) + [EndPage(runs[0]) - 1]
  {
    if runs != [] {
      assert Placed(runs, total, 0);
      PopRuns(runs);
    }
  }

  /** free_pcount is the height of the stack. */
  lemma {:induction false} StackSize(runs: Ring)
    ensures |Stack(runs)| == PagesIn(runs)
  {
    if runs != [] {
      StackSize(runs[1..]);
      assert Without(runs, 0) == runs[1..];
      PagesWithout(runs, 0);
    }
  }

  /** The stack holds the free pages ... */
  lemma {:induction false} StackPages(runs: Ring, p: nat)
    ensures p in Stack(runs) <==> FreePage(runs, p)
  {
    if runs != [] {
      var rest := runs[1..];
      StackPages(rest, p);
      assert Covers(runs, 0, p) ==> Pages(runs[0])[p - runs[0].page] == p;
      assert forall i: nat :: Covers(rest, i, p) <==> Covers(runs, i + 1, p);
      if i: nat :| 0 < i && Covers(runs, i, p) {
        assert Covers(rest, i - 1, p);
      }
    }
  }

  /** ... each of them once. */
  lemma {:induction false} StackDistinct(runs: Ring, total: nat)
    requires Sorted(runs, total)
    ensures forall i, j :: 0 <= i < j < |Stack(runs)| ==> Stack(runs)[i] != Stack(runs)[j]
  {
    if runs != [] {
      var rest := runs[1..];
      assert forall i: nat :: Placed(runs, total, i + 1) ==> Placed(rest, total, i);
      assert forall i: nat, j: nat :: InOrder(runs, i + 1, j + 1) ==> InOrder(rest, i, j);
      StackDistinct(rest, total);
      forall i | 0 <= i < |Stack(rest)| ensures EndPage(runs[0]) <= Stack(rest)[i] {
        var p := Stack(rest)[i];
        StackPages(rest, p);
        var k: nat :| Covers(rest, k, p);
        assert InOrder(runs, 0, k + 1);
      }
    }
  }
}
