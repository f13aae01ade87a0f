/** The window at TEMP_PAGE (temp_map_page and get_free_block, src/memory.c:102-120): the entry that says which frame is
    seen there is a word of the kernel's last page table, and so in memory itself. The allocator of frames and the page
    tables are both read and written through it. */
module TempPage {
  import opened Machine
  import opened PageRing
  import opened PageTables

  /** `paddr | PAGE_PRESENT | PAGE_WRITEABLE` */
  function OrPresentWriteable(paddr: u32): (r: u32)
    ensures FrameOf(r) == FrameOf(paddr)
  {
    paddr - paddr % 4 + 3
  }

  /** The present bit and the write bit are set, and the rest is the address. */
  lemma WindowEntry(paddr: u32)
    ensures Bit(OrPresentWriteable(paddr), 0) && Bit(OrPresentWriteable(paddr), 1)
    ensures OrPresentWriteable(paddr) / 4 == paddr / 4
  {
    var q := paddr / 4;
    assert OrPresentWriteable(paddr) == 4 * q + 3;
    assert (4 * q + 3) % 2 == 1 && (4 * q + 3) / 2 == 2 * q + 1 && (2 * q + 1) % 2 == 1;
    assert Bit(4 * q + 3, 1) == Bit(2 * q + 1, 0);
  }

  /** The frame that TEMP_PAGE shows. */
  function WindowOf(m: Ram): nat
    requires TEMP_TABLE < |m|
  {
    FrameOf(m[TEMP_TABLE][TEMP_INDX])
  }

  function HeaderOf(p: Page): Header {
    Header(p[0], p[1], p[2])
  }

  /** The headers of free runs are the first words of their pages. */
  function Headers(m: Ram): (r: seq<Header>)
    ensures |r| == |m| && forall f :: 0 <= f < |m| ==> r[f] == Header(m[f][0], m[f][1], m[f][2])
  {
    seq(|m|, f requires 0 <= f < |m| => HeaderOf(m[f]))
  }

  /** The frames that hold the headers of free runs. */
  ghost function Heads(runs: Ring): set<nat> {
    set i | 0 <= i < |runs| :: runs[i].page
  }

  /** Word `i` of frame `f` is as before, unless it maps the window or belongs to a header in one of the frames `s`. */
  predicate Kept(m: Ram, m': Ram, s: set<nat>, f: nat, i: nat) {
    f < |m| && f < |m'| && i < WORDS ==>
      m'[f][i] == m[f][i] || (f == TEMP_TABLE && i == TEMP_INDX) || (f in s && i < 3)
  }

  ghost predicate TouchedIs(m: Ram, m': Ram, s: set<nat>) {
    |m'| == |m| && forall f: nat, i: nat :: Kept(m, m', s, f, i)
  }

  /** Nothing has changed but the window and headers in the frames `s`. */
  ghost predicate Touched(m: Ram, m': Ram, s: set<nat>) {
    (if TouchedIs(m, m', s) then Clean else Corrupt).Clean?
  }

  lemma TouchedThen(m: Ram, m1: Ram, m2: Ram, s1: set<nat>, s2: set<nat>, s: set<nat>)
    requires Touched(m, m1, s1) && Touched(m1, m2, s2) && s1 + s2 <= s
    ensures Touched(m, m2, s)
  {
    forall f: nat, i: nat ensures Kept(m, m2, s, f, i) {
      assert Kept(m, m1, s1, f, i) && Kept(m1, m2, s2, f, i);
    }
    assert TouchedIs(m, m2, s);
  }

  lemma TouchedSelf(m: Ram, s: set<nat>)
    ensures Touched(m, m, s)
  {
    assert TouchedIs(m, m, s);
  }

  /** What has been touched since `m` stays within `s` when frames of `s` are touched. */
  lemma TouchedOn(m1: Ram, m2: Ram, s2: set<nat>)
    requires Touched(m1, m2, s2)
    ensures forall m: Ram, s: set<nat> {:trigger Touched(m, m1, s)} :: Touched(m, m1, s) && s2 <= s ==>
      Touched(m, m2, s)
  {
    forall m: Ram, s: set<nat> | Touched(m, m1, s) && s2 <= s ensures Touched(m, m2, s) {
      TouchedThen(m, m1, m2, s, s2, s);
    }
  }

  /** temp_map_page */
  method TempMapPage(ram: array<Page>, paddr: u32)
    requires TEMP_TABLE < ram.Length
    modifies ram
    ensures ram[..] == SetWordOf(old(ram[..]), TEMP_TABLE, TEMP_INDX, OrPresentWriteable(paddr))
    ensures Bit(ram[TEMP_TABLE][TEMP_INDX], 0) && Bit(ram[TEMP_TABLE][TEMP_INDX], 1)
    ensures WindowOf(ram[..]) == FrameOf(paddr) && Headers(ram[..]) == old(Headers(ram[..]))
    ensures Touched(old(ram[..]), ram[..], {})
    ensures forall m: Ram, s: set<nat> {:trigger Touched(m, old(ram[..]), s)} ::
      Touched(m, old(ram[..]), s) ==> Touched(m, ram[..], s)
  {
    ghost var m := ram[..];
    WindowEntry(paddr);
    ram[TEMP_TABLE] := ram[TEMP_TABLE][TEMP_INDX := OrPresentWriteable(paddr)];
    assert ram[..] == SetWordOf(m, TEMP_TABLE, TEMP_INDX, OrPresentWriteable(paddr));
    assert Headers(ram[..]) == Headers(m);
    assert TouchedIs(m, ram[..], {});
    TouchedOn(m, ram[..], {});
  }

  /** A field of the header in the window is written; header `h` is what it is then. */
  method SetField(ram: array<Page>, i: nat, w: u32, ghost h: Header)
    requires TEMP_TABLE < ram.Length && WindowOf(ram[..]) < ram.Length && i < 3
    requires h == HeaderOf(ram[WindowOf(ram[..])][i := w])
    modifies ram
    ensures Headers(ram[..]) == old(Headers(ram[..])[WindowOf(ram[..]) := h])
    ensures WindowOf(ram[..]) == old(WindowOf(ram[..])) && Touched(old(ram[..]), ram[..], {old(WindowOf(ram[..]))})
    ensures forall m: Ram, s: set<nat> {:trigger Touched(m, old(ram[..]), s)} ::
      Touched(m, old(ram[..]), s) && old(WindowOf(ram[..])) in s ==> Touched(m, ram[..], s)
  {
    ghost var m, f := ram[..], WindowOf(ram[..]);
    ram[FrameOf(ram[TEMP_TABLE][TEMP_INDX])] := ram[FrameOf(ram[TEMP_TABLE][TEMP_INDX])][i := w];
    assert ram[..] == SetWordOf(m, f, i, w);
    assert Headers(ram[..]) == Headers(m)[f := h];
    assert TouchedIs(m, ram[..], {f});
    TouchedOn(m, ram[..], {f});
  }
}
