/** The free ring next to the page tables: both lie in the same memory and are written through the same window. */
module FramePool {
  import opened Machine
  import opened PageRing
  import opened PageTables
  import opened FrameStack
  import opened TempPage

  /** The header of free run `i` lies in nobody's table. */
  ghost predicate HeadSpare(m: Ram, dir: nat, runs: Ring, i: nat) {
    i < |runs| ==> Unused(m, dir, runs[i].page)
  }

  /** So does frame `j` of the stack, if it is one of the top `n`. */
  ghost predicate TopSpare(m: Ram, dir: nat, frames: seq<nat>, n: nat, j: nat) {
    |frames| <= j + n && j < |frames| ==> Unused(m, dir, frames[j])
  }

  ghost predicate SpareIs(m: Ram, dir: nat, runs: Ring, n: nat, k: nat) {
    && Sorted(runs, |m|) && WellFormed(m, dir)
    && (forall i: nat :: HeadSpare(m, dir, runs, i)) && (forall j: nat :: TopSpare(m, dir, Stack(runs), n, j))
  }

  /** The directory in frame `dir` is in order, and it uses neither the headers of the free runs nor the `n` frames that
      are handed out next. */
  ghost predicate Spare(m: Ram, dir: nat, runs: Ring, n: nat) {
    (if forall k: nat {:trigger Unfold(k)} {:trigger SpareIs(m, dir, runs, n, k)} :: SpareIs(m, dir, runs, n, k)
     then Clean else Corrupt).Clean?
  }

  lemma SpareMeans(m: Ram, dir: nat, runs: Ring, n: nat)
    ensures Spare(m, dir, runs, n) <==> SpareIs(m, dir, runs, n, 0)
  {
    assert Unfold(0);
  }

  lemma SpareLess(m: Ram, dir: nat, runs: Ring, n: nat, n': nat)
    requires Spare(m, dir, runs, n) && n' <= n
    ensures Spare(m, dir, runs, n') && WellFormed(m, dir)
  {
    SpareMeans(m, dir, runs, n);
    SpareMeans(m, dir, runs, n');
    forall j: nat ensures TopSpare(m, dir, Stack(runs), n', j) {
      assert TopSpare(m, dir, Stack(runs), n, j);
    }
  }

  /** Nothing else matters. */
  lemma SpareKept(m: Ram, m': Ram, dir: nat, runs: Ring, n: nat)
    requires Spare(m, dir, runs, n) && |m'| == |m| && WellFormed(m', dir)
    requires forall a: nat :: Unused(m, dir, a) ==> Unused(m', dir, a)
    ensures Spare(m', dir, runs, n)
  {
    SpareMeans(m, dir, runs, n);
    SpareMeans(m', dir, runs, n);
    forall i: nat ensures HeadSpare(m', dir, runs, i) {
      assert HeadSpare(m, dir, runs, i);
    }
    forall j: nat ensures TopSpare(m', dir, Stack(runs), n, j) {
      assert TopSpare(m, dir, Stack(runs), n, j);
    }
  }

  // ---- what the allocator does to the tables ---------------------------------------------------------

  /** Writes to headers that lie in nobody's table, and to the window, change no entry. */
  lemma TouchedTables(m: Ram, m': Ram, s: set<nat>, dir: nat)
    requires Touched(m, m', s) && WellFormed(m, dir) && forall f :: f in s ==> Unused(m, dir, f)
    ensures |m'| == |m| && m'[dir] == m[dir] && WellFormed(m', dir) && SameEntries(m, m', dir)
    ensures forall a: nat :: Unused(m, dir, a) ==> Unused(m', dir, a)
  {
    forall i | 0 <= i < WORDS ensures m'[dir][i] == m[dir][i] {
      assert Kept(m, m', s, dir, i);
    }
    forall i: nat ensures TableOk(m', dir, i) {
      assert TableOk(m, dir, i);
    }
    forall i: nat, j: nat ensures TablesApart(m', dir, i, j) {
      assert TablesApart(m, dir, i, j);
    }
    forall vp: nat | vp != TEMP_VPAGE ensures Entry(m', dir, vp) == Entry(m, dir, vp) {
      if vp < PAGES {
        assert TableOk(m, dir, vp / WORDS);
        assert Kept(m, m', s, FrameOf(m[dir][vp / WORDS]), vp % WORDS);
      }
    }
  }

  /** The frame on top, when the `n` on top are spare. */
  lemma TopIs(m: Ram, dir: nat, runs: Ring, n: nat)
    requires Spare(m, dir, runs, n)
    ensures |runs| > 0 <==> Stack(runs) != []
    ensures |runs| > 0 ==> runs[0].pages >= 1 && FirstFit(runs, 1) == 0 && EndPage(runs[0]) <= |m|
    ensures |runs| > 0 ==> Stack(runs) == Stack(Taken(runs, 0, 1)) + [EndPage(runs[0]) - 1]
    ensures |runs| > 0 && n > 0 ==> Unused(m, dir, EndPage(runs[0]) - 1)
  {
    SpareMeans(m, dir, runs, n);
    PopIsAlloc(runs, |m|);
    if |runs| > 0 {
      assert Placed(runs, |m|, 0) && TopSpare(m, dir, Stack(runs), n, |Stack(runs)| - 1);
    }
  }

  lemma TakenHeads(runs: Ring, total: nat, k: nat)
    requires Sorted(runs, total) && |runs| > 0 && runs[0].pages >= 1 && k < |Taken(runs, 0, 1)|
    ensures exists i: nat :: i < |runs| && Taken(runs, 0, 1)[k].page == runs[i].page
    ensures Taken(runs, 0, 1)[k].page != EndPage(runs[0]) - 1
  {
    if runs[0].pages == 1 {
      assert Taken(runs, 0, 1)[k] == runs[k + 1] && InOrder(runs, 0, k + 1);
    } else {
      assert Taken(runs, 0, 1)[k].page == runs[k].page && InOrder(runs, 0, k);
    }
  }

  /** One frame has been handed out. */
  lemma SparePopped(m: Ram, m': Ram, dir: nat, runs: Ring, n: nat)
    requires Spare(m, dir, runs, n) && n > 0 && |runs| > 0 && runs[0].pages >= 1 && Touched(m, m', Heads(runs))
    requires Sorted(Taken(runs, 0, 1), |m'|)
    ensures dir < |m| == |m'| && m'[dir] == m[dir] && SameEntries(m, m', dir)
    ensures Spare(m', dir, Taken(runs, 0, 1), n - 1)
    ensures Unused(m', dir, EndPage(runs[0]) - 1)
  {
    var rest, n1 := Taken(runs, 0, 1), n - 1;
    SpareMeans(m, dir, runs, n);
    SpareMeans(m', dir, rest, n1);
    TopIs(m, dir, runs, n);
    forall f | f in Heads(runs) ensures Unused(m, dir, f) {
      var i: nat :| i < |runs| && f == runs[i].page;
      assert HeadSpare(m, dir, runs, i);
    }
    TouchedTables(m, m', Heads(runs), dir);
    forall k: nat ensures HeadSpare(m', dir, rest, k) {
      if k < |rest| {
        TakenHeads(runs, |m|, k);
        var i: nat :| i < |runs| && rest[k].page == runs[i].page;
        assert HeadSpare(m, dir, runs, i);
      }
    }
    forall j: nat ensures TopSpare(m', dir, Stack(rest), n1, j) {
      assert TopSpare(m, dir, Stack(runs), n, j);
    }
  }

  /** None has been. */
  lemma SpareUntouched(m: Ram, m': Ram, dir: nat, runs: Ring, n: nat)
    requires Spare(m, dir, runs, n) && Touched(m, m', Heads(runs)) && runs == []
    ensures dir < |m| == |m'| && m'[dir] == m[dir] && SameEntries(m, m', dir) && Spare(m', dir, runs, n)
  {
    SpareMeans(m, dir, runs, n);
    TouchedTables(m, m', Heads(runs), dir);
    SpareKept(m, m', dir, runs, n);
  }

  /** The frame handed out is not on the stack any more. */
  lemma PopDistinct(runs: Ring, m: Ram, dir: nat, n: nat)
    requires Spare(m, dir, runs, n) && |runs| > 0 && runs[0].pages >= 1
    ensures EndPage(runs[0]) - 1 !in Stack(Taken(runs, 0, 1))
  {
    SpareMeans(m, dir, runs, n);
    TopIs(m, dir, runs, n);
    StackDistinct(runs, |m|);
    var s := Stack(runs);
    forall i | 0 <= i < |s| - 1 ensures Stack(Taken(runs, 0, 1))[i] != EndPage(runs[0]) - 1 {
      assert s[i] != s[|s| - 1];
    }
  }

  // ---- what the tables do to the allocator ------------------------------------------------------------

  /** The ring is where its headers are. */
  lemma HoldsKept(m: Ram, m': Ram, head: u32, runs: Ring)
    requires Holds(Headers(m), head, runs) && |m'| == |m|
    requires forall i: nat :: i < |runs| ==>
      runs[i].page < |m| && HeaderOf(m'[runs[i].page]) == HeaderOf(m[runs[i].page])
    ensures Holds(Headers(m'), head, runs)
  {
    forall i: nat | i < |runs| ensures Linked(Headers(m'), runs, i) {
      assert Linked(Headers(m), runs, i);
    }
    assert HoldsIs(Headers(m'), head, runs);
  }

  lemma HeadInStack(runs: Ring, total: nat, i: nat)
    requires Sorted(runs, total) && i < |runs|
    ensures runs[i].page in Stack(runs) && runs[i].page < total
  {
    assert Placed(runs, total, i);
    assert Covers(runs, i, runs[i].page);
    StackPages(runs, runs[i].page);
  }

  /** A frame that has been handed out becomes a table; the rest of the stack stays as it is. */
  lemma SpareFilled(m: Ram, head: u32, dir: nat, runs: Ring, n: nat, t: nat, f: nat, w0: u32, w1: u32)
    requires Spare(m, dir, runs, n) && Holds(Headers(m), head, runs)
    requires dir < |m| && t < WORDS && !Present(m[dir][t]) && Unused(m, dir, f) && f !in Stack(runs)
    ensures TEMP_TABLE < |m| <= PAGES && f < |m| && WellFormed(m, dir)
    ensures var m' := Filled(m, dir, t, f, w0, w1);
      Spare(m', dir, runs, n) && Holds(Headers(m'), head, runs)
  {
    SpareMeans(m, dir, runs, n);
    FilledSuits(m, dir, t, f, w0, w1);
    var m' := Filled(m, dir, t, f, w0, w1);
    SpareMeans(m', dir, runs, n);
    forall i: nat ensures HeadSpare(m', dir, runs, i) && (i < |runs| ==> m'[runs[i].page] == m[runs[i].page]) {
      assert HeadSpare(m, dir, runs, i);
      if i < |runs| {
        HeadInStack(runs, |m|, i);
      }
    }
    forall j: nat ensures TopSpare(m', dir, Stack(runs), n, j) {
      assert TopSpare(m, dir, Stack(runs), n, j);
    }
    HoldsKept(m, m', head, runs);
  }

  /** So does the ring when an entry of a table or of the window is written. */
  lemma SpareWritten(m: Ram, m': Ram, head: u32, dir: nat, runs: Ring, n: nat, f: nat, i: nat, w: u32)
    requires Spare(m, dir, runs, n) && Holds(Headers(m), head, runs) && f < |m| && i < WORDS && !Unused(m, dir, f)
    requires m' == SetWordOf(m, f, i, w) && WellFormed(m', dir)
    requires forall a: nat :: Unused(m, dir, a) ==> Unused(m', dir, a)
    ensures Spare(m', dir, runs, n) && Holds(Headers(m'), head, runs)
  {
    SpareMeans(m, dir, runs, n);
    SpareKept(m, m', dir, runs, n);
    forall k: nat | k < |runs| ensures runs[k].page < |m| && m'[runs[k].page] == m[runs[k].page] {
      assert HeadSpare(m, dir, runs, k);
    }
    HoldsKept(m, m', head, runs);
  }
}
