/** The machine words of the kernel: bytes, 32-bit unsigned integers with the
    wrap-around of C arithmetic, little-endian words inside byte buffers, and
    the bit operations the bitmap code uses. */
module Machine {

  const WORD_LIMIT: int := 0x1_0000_0000
  const MINUS_ONE: u32 := 0xFFFF_FFFF

  type byte = x: int | 0 <= x < 256
  type u16 = x: int | 0 <= x < 0x1_0000
  type u32 = x: int | 0 <= x < 0x1_0000_0000

  /** The verdict of a consistency check. */
  datatype Verdict = Clean | Corrupt

  /** A predicate X over a whole structure is stated as `forall k: nat :: XIs(..., k)`, although XIs does not depend
      on `k`: X is passed on as it is, and opened only by a proof that mentions an instance of XIs, or that opens all
      such predicates with `assert Unfold(0)`. */
  ghost predicate Unfold(k: nat) {
    true
  }

  /** `a + b` in 32-bit unsigned arithmetic. */
  function Add32(a: int, b: int): (r: u32)
    ensures 0 <= a + b < WORD_LIMIT ==> r == a + b
  {
    (a + b) % WORD_LIMIT
  }

  /** `a - b` in 32-bit unsigned arithmetic. */
  function Sub32(a: int, b: int): (r: u32)
    ensures 0 <= a - b < WORD_LIMIT ==> r == a - b
  {
    (a - b) % WORD_LIMIT
  }

  /** `a * b` in 32-bit unsigned arithmetic. */
  function Mul32(a: int, b: int): u32 {
    a * b % WORD_LIMIT
  }

  /** Assigning a 32-bit value to an `s32int`. */
  function S32(x: int): (r: int)
    ensures -0x8000_0000 <= x < 0x8000_0000 ==> r == x
  {
    var w := x % WORD_LIMIT;
    if w < 0x8000_0000 then w else w - WORD_LIMIT
  }

  /** `w--` on a 16-bit field. */
  function Dec16(w: u16): (r: u16)
    ensures w > 0 ==> r == w - 1
  {
    (w - 1) % 0x1_0000
  }

  function Min(a: int, b: int): int {
    if a <= b then a else b
  }

  function Max(a: int, b: int): int {
    if a >= b then a else b
  }

  // ---- sequences and rings ---------------------------------------------------

  function Without<T>(s: seq<T>, i: nat): seq<T>
    requires i < |s|
  {
    s[..i] + s[i + 1..]
  }

  /** The place in the longer sequence of place `k` of the sequence without place `i`. */
  function Up(i: nat, k: nat): nat {
    if k < i then k else k + 1
  }

  /** The neighbours of place `i` in a ring of `n` places. */
  function Prev(n: nat, i: nat): (r: int)
    ensures i < n ==> 0 <= r < n
  {
    if i == 0 then n - 1 else i - 1
  }

  function Next(n: nat, i: nat): (r: int)
    ensures i < n ==> 0 <= r < n
  {
    if i == n - 1 then 0 else i + 1
  }

  /** The first place of `x`. */
  function Place<T(==)>(s: seq<T>, x: T): (j: nat)
    requires x in s
    ensures j < |s| && s[j] == x
  {
    if s[0] == x then 0 else 1 + Place(s[1..], x)
  }

  // ---- copying into a buffer ------------------------------------------------

  /** The buffer `dst` after `memcpy(dst + at, src, |src|)`. */
  function Splice<T>(dst: seq<T>, at: nat, src: seq<T>): (r: seq<T>)
    requires at + |src| <= |dst|
    ensures |r| == |dst|
    ensures forall k :: 0 <= k < |dst| ==> r[k] == if at <= k < at + |src| then src[k - at] else dst[k]
  {
    dst[..at] + src + dst[at + |src|..]
  }

  lemma SpliceSplice<T>(dst: seq<T>, at: nat, x: seq<T>, y: seq<T>)
    requires at + |x| + |y| <= |dst|
    ensures Splice(Splice(dst, at, x), at + |x|, y) == Splice(dst, at, x + y)
  {
  }

  lemma SpliceNothing<T>(dst: seq<T>, at: nat)
    requires at <= |dst|
    ensures Splice(dst, at, []) == dst
  {
  }

  // ---- words in a byte buffer ------------------------------------------------

  /** The little-endian word at index `k` of a buffer read as `u32int *`. */
  function Word(b: seq<byte>, k: nat): u32
    requires 4 * k + 4 <= |b|
  {
    FromBytes(b[4 * k], b[4 * k + 1], b[4 * k + 2], b[4 * k + 3])
  }

  function FromBytes(b0: byte, b1: byte, b2: byte, b3: byte): u32 {
    b0 as int + 0x100 * b1 as int + 0x1_0000 * b2 as int + 0x100_0000 * b3 as int
  }

  function WordBytes(w: u32): (r: seq<byte>)
    ensures |r| == 4 && FromBytes(r[0], r[1], r[2], r[3]) == w
  {
    var h1 := w / 0x100;
    var h2 := h1 / 0x100;
    [w % 0x100, h1 % 0x100, h2 % 0x100, h2 / 0x100]
  }

  /** The buffer after `((u32int *)b)[k] = w`. */
  function SetWord(b: seq<byte>, k: nat, w: u32): (r: seq<byte>)
    requires 4 * k + 4 <= |b|
    ensures |r| == |b|
    ensures Word(r, k) == w
    ensures forall j: nat :: j != k && 4 * j + 4 <= |b| ==> Word(r, j) == Word(b, j)
  {
    Splice(b, 4 * k, WordBytes(w))
  }

  predicate AllZero(b: seq<byte>) {
    forall k :: 0 <= k < |b| ==> b[k] == 0
  }

  // ---- bits of a word ----------------------------------------------------------

  /** `(w >> n) & 1`. */
  predicate Bit(w: nat, n: nat) {
    if n == 0 then w % 2 == 1 else Bit(w / 2, n - 1)
  }

  /** `w | (1 << n)`. */
  function SetBit(w: nat, n: nat): nat {
    if n == 0 then w / 2 * 2 + 1 else SetBit(w / 2, n - 1) * 2 + w % 2
  }

  function Pow2(n: nat): (r: nat)
    ensures r > 0
  {
    if n == 0 then 1 else 2 * Pow2(n - 1)
  }

  lemma {:induction false} BitOfSetBit(w: nat, n: nat, m: nat)
    ensures Bit(SetBit(w, n), m) <==> m == n || Bit(w, m)
  {
    if n > 0 {
      var s := SetBit(w / 2, n - 1);
      assert (s * 2 + w % 2) / 2 == s && (s * 2 + w % 2) % 2 == w % 2;
      if m > 0 {
        BitOfSetBit(w / 2, n - 1, m - 1);
      }
    } else if m > 0 {
      assert (w / 2 * 2 + 1) / 2 == w / 2;
    }
  }

  lemma {:induction false} SetBitBound(w: nat, n: nat, bits: nat)
    requires w < Pow2(bits) && n < bits
    ensures SetBit(w, n) < Pow2(bits)
  {
    if n > 0 {
      SetBitBound(w / 2, n - 1, bits - 1);
    }
  }

  lemma {:induction false} AllOnesBit(bits: nat, n: nat)
    requires n < bits
    ensures Bit(Pow2(bits) - 1, n)
  {
    assert (Pow2(bits) - 1) / 2 == Pow2(bits - 1) - 1;
    if n > 0 {
      AllOnesBit(bits - 1, n - 1);
    }
  }

  /** Only the all-ones word has every bit set. */
  lemma {:induction false} AllOnesOnly(w: nat, bits: nat)
    requires w < Pow2(bits)
    requires forall n: nat :: n < bits ==> Bit(w, n)
    ensures w == Pow2(bits) - 1
  {
    if bits > 0 {
      assert Bit(w, 0);
      forall n: nat | n < bits - 1 ensures Bit(w / 2, n) {
        assert Bit(w, n + 1);
      }
      AllOnesOnly(w / 2, bits - 1);
    }
  }

  /** `w | (1 << n)` on a 32-bit word. */
  function SetBit32(w: u32, n: nat): u32
    requires n < 32
  {
    assert SetBit(w, n) < WORD_LIMIT by { Pow2Of32(); SetBitBound(w, n, 32); }
    SetBit(w, n)
  }

  lemma Pow2Of32()
    ensures Pow2(32) == WORD_LIMIT
  {
    assert Pow2(8) == 256;
    assert Pow2(16) == 0x1_0000;
    assert Pow2(24) == 0x100_0000;
  }

  // ---- products and quotients ----------------------------------------------

  lemma MulPos(x: nat, y: nat)
    requires x > 0 && y > 0
    ensures x * y > 0
  {
  }

  lemma DivRange(x: nat, y: nat)
    requires y > 0
    ensures x / y >= 0 && 0 <= x - x / y * y < y
  {
    assert x == y * (x / y) + x % y;
    assert y * (x / y) == x / y * y;
  }

  lemma DivBelow(x: nat, y: nat, z: nat)
    requires y > 0 && x < z * y
    ensures x / y < z
  {
    DivRange(x, y);
    if x / y >= z {
      MulMono(z, x / y, y);
    }
  }

  lemma MulMono(a: nat, b: nat, c: nat)
    requires a <= b
    ensures a * c <= b * c
  {
  }

  lemma MulMonoIf(a: nat, b: nat, c: nat)
    ensures a <= b ==> a * c <= b * c
  {
    if a <= b {
      MulMono(a, b, c);
    }
  }

  lemma DivUnique(q: nat, r: nat, y: nat)
    requires r < y
    ensures (q * y + r) / y == q
  {
    var x := q * y + r;
    DivRange(x, y);
    var d := x / y;
    assert (d + 1) * y == d * y + y && (q + 1) * y == q * y + y;
    if d < q {
      MulMono(d + 1, q, y);
    } else if d > q {
      MulMono(q + 1, d, y);
    }
  }

  lemma ModUnique(q: nat, r: nat, y: nat)
    requires r < y
    ensures (q * y + r) % y == r
  {
    DivUnique(q, r, y);
    var x := q * y + r;
    assert x == y * (x / y) + x % y;
    assert y * (x / y) == q * y;
  }
}
