/** Two-level page tables seen through the temporary page (src/memory.c:102-113, 333-400, 548-575). The entry that
    maps TEMP_PAGE is itself a word of a page table in memory. */
module PageTables {
  import opened Machine

  const PAGE_SIZE := 0x1000
  const WORDS := 1024
  const PAGES := 0x10_0000
  /** KERN_PAGE_TABLE, the kernel's directory; its tables follow it. */
  const KERN_DIR := 0x500
  /** TABLE_INDX and PAGE_INDX: where the entry of TEMP_PAGE = KERN_BASE + KERN_SIZE - PAGE_SIZE stands. */
  const TEMP_TABLE_INDX := 4
  const TEMP_INDX := 511
  const TEMP_TABLE := 0x505
  const TEMP_VPAGE := 0x11FF

  type Page = p: seq<u32> | |p| == WORDS witness seq(WORDS, _ => 0)
  type Ram = seq<Page>

  function ZeroPage(): (r: Page)
    ensures forall i :: 0 <= i < WORDS ==> r[i] == 0
  {
    seq(WORDS, _ => 0)
  }

  function FrameOf(entry: u32): nat {
    entry / PAGE_SIZE
  }

  predicate Present(entry: u32) {
    entry % 2 == 1
  }

  /** `entry & ~PAGE_OFFSET_MASK` */
  function Masked(entry: u32): (r: u32)
    ensures r == PAGE_SIZE * FrameOf(entry)
  {
    entry - entry % PAGE_SIZE
  }

  /** The page table entry of virtual page `vp`, 0 if there is no table for it. */
  function Entry(m: Ram, dir: nat, vp: nat): u32 {
    if dir < |m| && vp < PAGES && Present(m[dir][vp / WORDS]) && FrameOf(m[dir][vp / WORDS]) < |m|
    then m[FrameOf(m[dir][vp / WORDS])][vp % WORDS] else 0
  }

  /** Table `i` of the directory lies inside memory, apart from the directory; the table that holds the entry of
      TEMP_PAGE can only be the one for TEMP_PAGE. */
  predicate TableOk(m: Ram, dir: nat, i: nat) {
    dir < |m| && i < WORDS && Present(m[dir][i]) ==>
      && FrameOf(m[dir][i]) < |m| && FrameOf(m[dir][i]) != dir
      && (FrameOf(m[dir][i]) == TEMP_TABLE ==> i == TEMP_TABLE_INDX)
  }

  predicate TablesApart(m: Ram, dir: nat, i: nat, j: nat) {
    dir < |m| && i < j < WORDS && Present(m[dir][i]) && Present(m[dir][j]) ==> FrameOf(m[dir][i]) != FrameOf(m[dir][j])
  }

  /** A directory whose tables are distinct. */
  ghost predicate WellFormed(m: Ram, dir: nat) {
    && TEMP_TABLE < |m| <= PAGES && dir < |m| && dir != TEMP_TABLE
    && (forall i: nat :: TableOk(m, dir, i)) && (forall i: nat, j: nat :: TablesApart(m, dir, i, j))
  }

  /** Frame `f` is neither the directory nor one of its tables nor the table of TEMP_PAGE. */
  ghost predicate Unused(m: Ram, dir: nat, f: nat) {
    f < |m| && f != dir && f != TEMP_TABLE && forall i: nat :: dir < |m| && i < WORDS && Present(m[dir][i]) ==>
      FrameOf(m[dir][i]) != f
  }

  /** Every page but TEMP_PAGE has the entry it had. */
  ghost predicate SameEntries(m: Ram, m': Ram, dir: nat) {
    forall vp: nat :: vp != TEMP_VPAGE ==> Entry(m', dir, vp) == Entry(m, dir, vp)
  }

  function SetWordOf(m: Ram, f: nat, i: nat, w: u32): Ram
    requires f < |m| && i < WORDS
  {
    m[f := m[f][i := w]]
  }

  /** Mapping another page at TEMP_PAGE changes no other entry. */
  lemma TempWrite(m: Ram, dir: nat, w: u32)
    requires WellFormed(m, dir)
    ensures WellFormed(SetWordOf(m, TEMP_TABLE, TEMP_INDX, w), dir)
            && SameEntries(m, SetWordOf(m, TEMP_TABLE, TEMP_INDX, w), dir)
    ensures SetWordOf(m, TEMP_TABLE, TEMP_INDX, w)[dir] == m[dir]
    ensures forall f: nat :: Unused(m, dir, f) ==> Unused(SetWordOf(m, TEMP_TABLE, TEMP_INDX, w), dir, f)
  {
    var m' := SetWordOf(m, TEMP_TABLE, TEMP_INDX, w);
    forall i: nat ensures TableOk(m', dir, i) {
      assert TableOk(m, dir, i);
    }
    forall i: nat, j: nat ensures TablesApart(m', dir, i, j) {
      assert TablesApart(m, dir, i, j);
    }
    forall vp: nat | vp != TEMP_VPAGE ensures Entry(m', dir, vp) == Entry(m, dir, vp) {
      assert TableOk(m, dir, vp / WORDS);
    }
  }

  /** Writing one entry of a present table changes that page and no other. */
  lemma EntryWrite(m: Ram, dir: nat, vp: nat, w: u32)
    requires WellFormed(m, dir) && vp < PAGES && Present(m[dir][vp / WORDS])
    ensures FrameOf(m[dir][vp / WORDS]) < |m|
    ensures var m' := SetWordOf(m, FrameOf(m[dir][vp / WORDS]), vp % WORDS, w);
      && WellFormed(m', dir) && m'[dir] == m[dir]
      && (forall q: nat :: Entry(m', dir, q) == if q == vp then w else Entry(m, dir, q))
      && (forall f: nat :: Unused(m, dir, f) ==> Unused(m', dir, f))
  {
    var t := vp / WORDS;
    assert TableOk(m, dir, t);
    var m' := SetWordOf(m, FrameOf(m[dir][t]), vp % WORDS, w);
    forall i: nat ensures TableOk(m', dir, i) {
      assert TableOk(m, dir, i);
    }
    forall i: nat, j: nat ensures TablesApart(m', dir, i, j) {
      assert TablesApart(m, dir, i, j);
    }
    forall q: nat ensures Entry(m', dir, q) == if q == vp then w else Entry(m, dir, q) {
      assert TablesApart(m, dir, t, q / WORDS) && TablesApart(m, dir, q / WORDS, t);
    }
  }

  /** What phys2virt does with frame `f` for a slot that has no table: it clears the frame through the window (word
      `w0`) and hooks it into the directory (word `w1`). */
  function Filled(m: Ram, dir: nat, t: nat, f: nat, w0: u32, w1: u32): (r: Ram)
    requires TEMP_TABLE < |m| <= PAGES && dir < |m| && f < |m| && t < WORDS
    ensures |r| == |m|
  {
    assert PAGE_SIZE * f + 7 < WORD_LIMIT;
    var cleared := SetWordOf(m, TEMP_TABLE, TEMP_INDX, w0)[f := ZeroPage()];
    SetWordOf(SetWordOf(cleared, TEMP_TABLE, TEMP_INDX, w1), dir, t, PAGE_SIZE * f + 7)
  }

  /** Frame `f` can become the table of slot `t`: nobody uses it, or it is the table of TEMP_PAGE and goes where that
      belongs. */
  ghost predicate Suits(m: Ram, dir: nat, t: nat, f: nat) {
    Unused(m, dir, f) || (f < |m| && f == TEMP_TABLE && t == TEMP_TABLE_INDX)
  }

  /** The directory stays well formed exactly if the frame suits. */
  lemma FilledExact(m: Ram, dir: nat, t: nat, f: nat, w0: u32, w1: u32)
    requires WellFormed(m, dir) && t < WORDS && !Present(m[dir][t]) && f < |m|
    ensures WellFormed(Filled(m, dir, t, f, w0, w1), dir) <==> Suits(m, dir, t, f)
  {
    var m' := Filled(m, dir, t, f, w0, w1);
    if Suits(m, dir, t, f) {
      FilledSuits(m, dir, t, f, w0, w1);
    } else if f == dir || f == TEMP_TABLE {
      assert !TableOk(m', dir, t);
    } else {
      var i: nat :| i < WORDS && Present(m[dir][i]) && FrameOf(m[dir][i]) == f;
      assert !(TablesApart(m', dir, i, t) && TablesApart(m', dir, t, i));
    }
  }

  /** A suitable frame becomes the table of a slot that had none: nothing is mapped by that. */
  lemma FilledSuits(m: Ram, dir: nat, t: nat, f: nat, w0: u32, w1: u32)
    requires WellFormed(m, dir) && t < WORDS && !Present(m[dir][t]) && Suits(m, dir, t, f)
    ensures f < |m|
    ensures var m' := Filled(m, dir, t, f, w0, w1);
      && WellFormed(m', dir) && Present(m'[dir][t]) && FrameOf(m'[dir][t]) == f && SameEntries(m, m', dir)
      && (forall i :: 0 <= i < WORDS && i != t ==> m'[dir][i] == m[dir][i])
      && (forall a: nat :: Unused(m, dir, a) && a != f ==> Unused(m', dir, a) && m'[a] == m[a])
  {
    var m' := Filled(m, dir, t, f, w0, w1);
    forall i: nat ensures TableOk(m', dir, i) {
      assert TableOk(m, dir, i);
    }
    forall i: nat, j: nat ensures TablesApart(m', dir, i, j) {
      assert TablesApart(m, dir, i, j) && TableOk(m, dir, i) && TableOk(m, dir, j);
    }
    forall q: nat | q != TEMP_VPAGE ensures Entry(m', dir, q) == Entry(m, dir, q) {
      assert q < PAGES ==> TableOk(m, dir, q / WORDS);
    }
  }

  /** The first `k` pages from `vp` on are mapped to consecutive frames from `paddr` on, all other pages are as before;
      TEMP_PAGE is left out of account. */
  ghost predicate MappedSome(m: Ram, m': Ram, dir: nat, vp: nat, paddr: nat, flags: nat, k: nat) {
    forall q: nat :: q != TEMP_VPAGE ==>
      Entry(m', dir, q) as int == if vp <= q < vp + k then paddr + PAGE_SIZE * (q - vp) + flags else Entry(m, dir, q)
  }

  lemma MappedNext(m: Ram, m1: Ram, m2: Ram, dir: nat, vp: nat, paddr: nat, flags: nat, k: nat)
    requires MappedSome(m, m1, dir, vp, paddr, flags, k)
    requires forall q: nat :: q != TEMP_VPAGE ==>
      Entry(m2, dir, q) as int == if q == vp + k then paddr + PAGE_SIZE * k + flags else Entry(m1, dir, q)
    ensures MappedSome(m, m2, dir, vp, paddr, flags, k + 1)
  {
  }

  /** What a mapping means to the processor: the addresses from that of page `vp` on go to those from `paddr` on. */
  lemma MappedMeans(m: Ram, m': Ram, dir: nat, vp: nat, paddr: nat, flags: nat, k: nat, x: nat)
    requires MappedSome(m, m', dir, vp, paddr, flags, k) && paddr % PAGE_SIZE == 0
    requires x < PAGE_SIZE * k && flags < PAGE_SIZE && (PAGE_SIZE * vp + x) / PAGE_SIZE != TEMP_VPAGE
    ensures Masked(Entry(m', dir, (PAGE_SIZE * vp + x) / PAGE_SIZE)) + (PAGE_SIZE * vp + x) % PAGE_SIZE == paddr + x
  {
    var d := x / PAGE_SIZE;
    assert (PAGE_SIZE * vp + x) / PAGE_SIZE == vp + d && (PAGE_SIZE * vp + x) % PAGE_SIZE == x % PAGE_SIZE;
    assert Entry(m', dir, vp + d) as int == paddr + PAGE_SIZE * d + flags;
  }

  // ---- what the processor makes of it ---------------------------------------------------------------------

  datatype Walked = Fault | At(addr: nat)

  /** Where the processor sends virtual address `v`: bits 31 to 22 pick the word of the directory and bits 21 to 12 that
      of the table, bit 0 of either word says whether it is there, its bits 31 to 12 name the frame. */
  function Walk(m: Ram, dir: nat, v: nat): Walked {
    if dir >= |m| || v >= 0x1_0000_0000 then Fault
    else
      var pde := m[dir][v / 0x40_0000];
      if pde % 2 == 0 || pde / 0x1000 >= |m| then Fault
      else
        var pte := m[pde / 0x1000][v / 0x1000 % 0x400];
        if pte % 2 == 0 then Fault else At(pte / 0x1000 * 0x1000 + v % 0x1000)
  }

  lemma WalkIs(m: Ram, dir: nat, v: nat)
    ensures Walk(m, dir, v) ==
      if Present(Entry(m, dir, v / PAGE_SIZE)) then At(Masked(Entry(m, dir, v / PAGE_SIZE)) + v % PAGE_SIZE) else Fault
  {
    assert v / 0x40_0000 == v / PAGE_SIZE / WORDS;
    assert v < 0x1_0000_0000 <==> v / PAGE_SIZE < PAGES;
  }

  /** What a mapping with the present bit means: byte v + x is at byte p + x, and every other page is where it was. */
  lemma MappedWalk(m: Ram, m': Ram, dir: nat, vp: nat, paddr: nat, flags: nat, k: nat, a: nat)
    requires MappedSome(m, m', dir, vp, paddr, flags, k) && paddr % PAGE_SIZE == 0
    requires flags < PAGE_SIZE && flags % 2 == 1 && a / PAGE_SIZE != TEMP_VPAGE
    ensures Walk(m', dir, a) ==
      if PAGE_SIZE * vp <= a < PAGE_SIZE * (vp + k) then At(paddr + (a - PAGE_SIZE * vp)) else Walk(m, dir, a)
  {
    WalkIs(m, dir, a);
    WalkIs(m', dir, a);
    var q := a / PAGE_SIZE;
    assert Entry(m', dir, q) as int
      == if vp <= q < vp + k then paddr + PAGE_SIZE * (q - vp) + flags else Entry(m, dir, q);
    if PAGE_SIZE * vp <= a < PAGE_SIZE * (vp + k) {
      MappedMeans(m, m', dir, vp, paddr, flags, k, a - PAGE_SIZE * vp);
    }
  }

  // ---- the tables a mapping needs -----------------------------------------------------------------------

  /** The directory slots of pages vp, ..., vp + n - 1. */
  function Slots(vp: nat, n: nat): set<nat> {
    if n == 0 then {} else Slots(vp, n - 1) + {(vp + n - 1) / WORDS}
  }

  /** Those of them that have no table. */
  function Tableless(page: Page, ts: set<nat>): (r: set<nat>)
    ensures r <= ts
  {
    set i | i in ts && i < WORDS && !Present(page[i])
  }

  /** Tables have been hooked in where `ts` had none, and nowhere else. */
  ghost predicate TablesFor(page: Page, page': Page, ts: set<nat>) {
    forall i: nat :: i < WORDS ==> (Present(page'[i]) <==> Present(page[i]) || i in ts)
  }

  lemma {:induction false} SlotsMore(vp: nat, n: nat, m: nat)
    requires n <= m
    ensures Slots(vp, n) <= Slots(vp, m)
  {
    if n < m {
      SlotsMore(vp, n, m - 1);
    }
  }

  lemma SetSize(a: set<nat>, b: set<nat>)
    requires a <= b
    ensures |a| <= |b|
  {
    assert b == a + (b - a);
  }

  /** What one more page needs. */
  lemma TablelessNext(page: Page, page': Page, ts: set<nat>, t: nat)
    requires TablesFor(page, page', ts) && t < WORDS
    ensures |Tableless(page, ts + {t})| == |Tableless(page, ts)| + if Present(page'[t]) then 0 else 1
  {
    if Present(page'[t]) {
      assert Tableless(page, ts + {t}) == Tableless(page, ts);
    } else {
      assert Tableless(page, ts + {t}) == Tableless(page, ts) + {t};
    }
  }

  /** If a table is missing and no frame is left, there were too few frames for the whole mapping. */
  lemma TablelessShort(page: Page, page': Page, vp: nat, n: nat, m: nat)
    requires n < m && TablesFor(page, page', Slots(vp, n)) && (vp + n) / WORDS < WORDS
             && !Present(page'[(vp + n) / WORDS])
    ensures |Tableless(page, Slots(vp, m))| > |Tableless(page, Slots(vp, n))|
  {
    TablelessNext(page, page', Slots(vp, n), (vp + n) / WORDS);
    SlotsMore(vp, n + 1, m);
    SetSize(Tableless(page, Slots(vp, n + 1)), Tableless(page, Slots(vp, m)));
  }

  /** If slot `t` of the directory had no table, it has one now, at the price of one frame; no other slot changes. */
  ghost predicate Took(page: Page, page': Page, frames: nat, frames': nat, t: nat, ok: bool) {
    t < WORDS &&
    if ok then TablesFor(page, page', {t}) && frames' + (if Present(page[t]) then 0 else 1) == frames
    else page' == page && frames' == frames == 0 && !Present(page[t])
  }

  /** Slot `i` is as before, or it had no table and has got one of the frames that have left the stack, present,
      writeable and for the user (the low three bits). */
  predicate TableFrom(page: Page, page': Page, s: seq<nat>, s': seq<nat>, i: nat) {
    i < WORDS ==>
      page'[i] == page[i]
      || (!Present(page[i]) && Present(page'[i]) && page'[i] == PAGE_SIZE * FrameOf(page'[i]) + 7
          && FrameOf(page'[i]) in s && FrameOf(page'[i]) !in s')
  }

  ghost predicate TablesFromIs(page: Page, page': Page, s: seq<nat>, s': seq<nat>) {
    s' <= s && forall i: nat :: TableFrom(page, page', s, s', i)
  }

  /** The new tables are frames from the top of the stack. */
  ghost predicate TablesFrom(page: Page, page': Page, s: seq<nat>, s': seq<nat>) {
    (if TablesFromIs(page, page', s, s') then Clean else Corrupt).Clean?
  }

  lemma TablesFromNone(page: Page, s: seq<nat>)
    ensures TablesFrom(page, page, s, s)
  {
    assert TablesFromIs(page, page, s, s);
  }

  lemma TablesFromThen(page: Page, page1: Page, page2: Page, s: seq<nat>, s1: seq<nat>, s2: seq<nat>)
    requires TablesFrom(page, page1, s, s1) && TablesFrom(page1, page2, s1, s2)
    ensures TablesFrom(page, page2, s, s2)
  {
    forall i: nat ensures TableFrom(page, page2, s, s2, i) {
      assert TableFrom(page, page1, s, s1, i) && TableFrom(page1, page2, s1, s2, i);
    }
    assert TablesFromIs(page, page2, s, s2);
  }

  ghost predicate MappingIs(m: Ram, m': Ram, frames: nat, frames': nat, dir: nat, vp: nat, paddr: nat, flags: nat,
                            k: nat, j: nat) {
    && dir < |m| && dir < |m'| && TablesFor(m[dir], m'[dir], Slots(vp, k))
       && frames' + |Tableless(m[dir], Slots(vp, k))| == frames
    && MappedSome(m, m', dir, vp, paddr, flags, k)
  }

  /** `k` pages have been mapped, each missing table has taken one frame. */
  ghost predicate Mapping(m: Ram, m': Ram, frames: nat, frames': nat, dir: nat, vp: nat, paddr: nat, flags: nat,
                          k: nat) {
    dir < |m| == |m'| &&
    (if forall j: nat {:trigger Unfold(j)} {:trigger MappingIs(m, m', frames, frames', dir, vp, paddr, flags, k, j)} ::
       MappingIs(m, m', frames, frames', dir, vp, paddr, flags, k, j)
     then Clean else Corrupt).Clean?
  }

  lemma MappingMeans(m: Ram, m': Ram, frames: nat, frames': nat, dir: nat, vp: nat, paddr: nat, flags: nat, k: nat)
    requires dir < |m| == |m'|
    ensures Mapping(m, m', frames, frames', dir, vp, paddr, flags, k)
      <==> MappingIs(m, m', frames, frames', dir, vp, paddr, flags, k, 0)
  {
    assert Unfold(0);
  }

  lemma MappingStart(m: Ram, frames: nat, dir: nat, vp: nat, paddr: nat, flags: nat)
    requires dir < |m|
    ensures Mapping(m, m, frames, frames, dir, vp, paddr, flags, 0)
  {
    assert MappingIs(m, m, frames, frames, dir, vp, paddr, flags, 0, 0);
    MappingMeans(m, m, frames, frames, dir, vp, paddr, flags, 0);
  }

  lemma MappingFits(m: Ram, m': Ram, frames: nat, frames': nat, dir: nat, vp: nat, paddr: nat, flags: nat, k: nat)
    requires Mapping(m, m', frames, frames', dir, vp, paddr, flags, k)
    ensures dir < |m| && |Tableless(m[dir], Slots(vp, k))| <= frames
  {
    MappingMeans(m, m', frames, frames', dir, vp, paddr, flags, k);
  }

  lemma MappingNext(m: Ram, m1: Ram, m2: Ram, frames: nat, frames1: nat, frames2: nat, dir: nat, vp: nat, paddr: nat,
                    flags: nat, k: nat)
    requires Mapping(m, m1, frames, frames1, dir, vp, paddr, flags, k) && |m2| == |m1|
    requires Took(m1[dir], m2[dir], frames1, frames2, (vp + k) / WORDS, true)
    requires forall q: nat :: q != TEMP_VPAGE ==>
      Entry(m2, dir, q) as int == if q == vp + k then paddr + PAGE_SIZE * k + flags else Entry(m1, dir, q)
    ensures Mapping(m, m2, frames, frames2, dir, vp, paddr, flags, k + 1)
  {
    MappingMeans(m, m1, frames, frames1, dir, vp, paddr, flags, k);
    MappingMeans(m, m2, frames, frames2, dir, vp, paddr, flags, k + 1);
    TablelessNext(m[dir], m1[dir], Slots(vp, k), (vp + k) / WORDS);
    MappedNext(m, m1, m2, dir, vp, paddr, flags, k);
  }

  lemma MappingShort(m: Ram, m1: Ram, m2: Ram, frames: nat, frames1: nat, frames2: nat, dir: nat, vp: nat, paddr: nat,
                     flags: nat, k: nat, n: nat)
    requires Mapping(m, m1, frames, frames1, dir, vp, paddr, flags, k) && |m2| == |m1| && k < n
    requires Took(m1[dir], m2[dir], frames1, frames2, (vp + k) / WORDS, false) && SameEntries(m1, m2, dir)
    ensures Mapping(m, m2, frames, frames2, dir, vp, paddr, flags, k) && |Tableless(m[dir], Slots(vp, n))| > frames
  {
    MappingMeans(m, m1, frames, frames1, dir, vp, paddr, flags, k);
    MappingMeans(m, m2, frames, frames2, dir, vp, paddr, flags, k);
    TablelessShort(m[dir], m1[dir], vp, k, n);
  }

  /** How many more tables the pages from `k` on need, out of `n`. */
  function Needed(page: Page, vp: nat, k: nat, n: nat): nat {
    Max(0, |Tableless(page, Slots(vp, n))| - |Tableless(page, Slots(vp, k))|)
  }

  /** A page without a table is one of those that need one. */
  lemma MappingNeeds(m: Ram, m1: Ram, frames: nat, frames1: nat, dir: nat, vp: nat, paddr: nat, flags: nat, k: nat,
                     n: nat)
    requires Mapping(m, m1, frames, frames1, dir, vp, paddr, flags, k) && k < n && (vp + k) / WORDS < WORDS
    ensures Needed(m[dir], vp, k + 1, n)
            == Needed(m[dir], vp, k, n) - if Present(m1[dir][(vp + k) / WORDS]) then 0 else 1
  {
    var t := (vp + k) / WORDS;
    MappingMeans(m, m1, frames, frames1, dir, vp, paddr, flags, k);
    TablelessNext(m[dir], m1[dir], Slots(vp, k), t);
    SlotsMore(vp, k + 1, n);
    SetSize(Tableless(m[dir], Slots(vp, k + 1)), Tableless(m[dir], Slots(vp, n)));
  }

  // ---- the kernel's own tables ------------------------------------------------------------------------

  /** (KERN_BASE + KERN_SIZE) / PAGE_SIZE */
  const MAPPED_PAGES := 0x1200

  predicate SelfMapped(m: Ram, vp: nat) {
    KERN_DIR + 1 + vp / WORDS < |m| && m[KERN_DIR + 1 + vp / WORDS][vp % WORDS] == (PAGE_SIZE * vp + 7) % WORD_LIMIT
  }

  predicate Hooked(m: Ram, i: nat, n: nat) {
    KERN_DIR < |m| && i < WORDS ==> m[KERN_DIR][i] == if WORDS * i < n && i <= TEMP_TABLE_INDX
      then PAGE_SIZE * (KERN_DIR + 1 + i) + 7 else 0
  }

  /** The first `n` pages are mapped to themselves, through the tables that follow the directory. */
  ghost predicate IdentityUpTo(m: Ram, n: nat) {
    && TEMP_TABLE < |m| <= PAGES && n <= MAPPED_PAGES
    && (forall vp: nat :: vp < n ==> SelfMapped(m, vp)) && (forall i: nat :: Hooked(m, i, n))
  }

  lemma IdentityNext(m: Ram, n: nat)
    requires IdentityUpTo(m, n) && n < MAPPED_PAGES
    ensures KERN_DIR + 1 + n / WORDS < |m| && PAGE_SIZE * n + 7 < WORD_LIMIT
    ensures var m1 := SetWordOf(m, KERN_DIR, n / WORDS, PAGE_SIZE * (KERN_DIR + 1 + n / WORDS) + 7);
      IdentityUpTo(SetWordOf(m1, KERN_DIR + 1 + n / WORDS, n % WORDS, PAGE_SIZE * n + 7), n + 1)
  {
    var m1 := SetWordOf(m, KERN_DIR, n / WORDS, PAGE_SIZE * (KERN_DIR + 1 + n / WORDS) + 7);
    var m2 := SetWordOf(m1, KERN_DIR + 1 + n / WORDS, n % WORDS, PAGE_SIZE * n + 7);
    var n1 := n + 1;
    forall i: nat ensures Hooked(m2, i, n1) {
      assert Hooked(m, i, n);
    }
    forall vp: nat | vp < n1 ensures SelfMapped(m2, vp) {
      assert vp < n ==> SelfMapped(m, vp);
    }
  }

  /** The kernel directory starts out well formed. */
  lemma IdentityMeans(m: Ram)
    requires IdentityUpTo(m, MAPPED_PAGES)
    ensures WellFormed(m, KERN_DIR)
    ensures forall vp: nat :: vp < MAPPED_PAGES ==> Entry(m, KERN_DIR, vp) == PAGE_SIZE * vp + 7
    ensures forall i: nat :: MAPPED_PAGES <= WORDS * i && i < WORDS ==> !Present(m[KERN_DIR][i])
  {
    forall i: nat ensures TableOk(m, KERN_DIR, i) {
      assert Hooked(m, i, MAPPED_PAGES);
    }
    forall i: nat, j: nat ensures TablesApart(m, KERN_DIR, i, j) {
      assert Hooked(m, i, MAPPED_PAGES) && Hooked(m, j, MAPPED_PAGES);
    }
    forall vp: nat | vp < MAPPED_PAGES ensures Entry(m, KERN_DIR, vp) == PAGE_SIZE * vp + 7 {
      assert Hooked(m, vp / WORDS, MAPPED_PAGES) && SelfMapped(m, vp);
    }
    forall i: nat | MAPPED_PAGES <= WORDS * i && i < WORDS ensures !Present(m[KERN_DIR][i]) {
      assert Hooked(m, i, MAPPED_PAGES);
    }
  }
}
